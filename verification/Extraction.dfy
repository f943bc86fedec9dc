/**
  bp_cpio_extract_internal: the archive is verified, read a second time, and laid
  out in an empty directory.
*/
module Extraction {
  import opened CStrings
  import opened Archive
  import opened ArchiveReader
  import opened FileTree
  import opened FileSystem
  import Config
  import Newc
  import Verifier

  // ----- Trees that can be walked

  function Parent(p: Path): Path
    requires p != []
  {
    p[..|p| - 1]
  }

  /** A node hangs in a directory, by a plain name. */
  predicate Held(nodes: Nodes, p: Path) {
    p == [] || (IsName(p[|p| - 1]) && Parent(p) in nodes && nodes[Parent(p)].Directory?)
  }

  ghost predicate Rooted(nodes: Nodes) {
    && [] in nodes && nodes[[]].Directory?
    && forall p {:trigger Held(nodes, p)} :: p in nodes ==> Held(nodes, p)
  }

  /** In every directory names can be made. */
  ghost predicate Open(env: Env, nodes: Nodes) {
    forall p {:trigger nodes[p]} :: p in nodes && nodes[p].Directory? ==> env.Usable(nodes[p])
  }

  lemma {:induction false} WalkInside(env: Env, nodes: Nodes, p: Path)
    requires Rooted(nodes) && Open(env, nodes) && p in nodes && nodes[p].Directory?
    ensures env.Walk(nodes, p) == Inside
    decreases |p|
  {
    if p != [] {
      assert Held(nodes, p);
      WalkInside(env, nodes, Parent(p));
    }
  }

  /** A walk to a directory of the tree stays in the tree, whatever the modes are. */
  lemma {:induction false} WalkStays(env: Env, nodes: Nodes, p: Path)
    requires Rooted(nodes) && p in nodes && nodes[p].Directory?
    ensures env.Walk(nodes, p) != Outside
    decreases |p|
  {
    if p != [] {
      assert Held(nodes, p);
      WalkStays(env, nodes, Parent(p));
    }
  }

  lemma {:induction false} RootedAfter(nodes: Nodes, p: Path, n: Node)
    requires Rooted(nodes) && Held(nodes, p)
    requires p in nodes && nodes[p].Directory? ==> n.Directory?
    ensures Rooted(nodes[p := n])
  {
    var nodes' := nodes[p := n];
    forall q | q in nodes' ensures Held(nodes', q) {
      assert Held(nodes, q);
    }
  }

  // ----- Parents

  /** The first two phases: nothing left the tree, and only files and directories
      (phase 0) or links as well (phase 1) were made. */
  ghost predicate Ready(fs: Files, phase: nat)
    reads fs
  {
    && Rooted(fs.nodes) && Open(fs.env, fs.nodes) && fs.env.Usable(fs.env.NewDirectory())
    && !fs.escaped && Phased(fs.events, phase)
  }

  /** One turn of ensure_safe_parent's loop. */
  method EnsureDirectory(fs: Files, p: Path) returns (ok: bool)
    requires Ready(fs, 0) && p != [] && Held(fs.nodes, p)
    modifies fs
    ensures Ready(fs, 0)
    ensures ok ==> p in fs.nodes && fs.nodes[p].Directory?
                   && fs.nodes == if p in old(fs.nodes) then old(fs.nodes)
                                  else old(fs.nodes)[p := fs.env.NewDirectory()]
    ensures fs.reliable ==> (ok <==> p !in old(fs.nodes) || old(fs.nodes)[p].Directory?)
  {
    WalkInside(fs.env, fs.nodes, Parent(p));
    var status := fs.Lstat(Route(p, false));
    match status {
      case Unknown => return false;
      case Found(node) => return node.Directory?;
      case Absent =>
        RootedAfter(fs.nodes, p, fs.env.NewDirectory());
        var made := fs.Mkdir(Route(p, false));
        return made == Done;
    }
  }

  predicate PlainParts(p: Path) {
    forall i :: 0 <= i < |p| ==> IsName(p[i])
  }

  lemma {:induction false} PlainPathParts(parts: seq<string>)
    requires |parts| > 0 && Config.PlainPath(parts)
    ensures PlainParts(NonEmpty(parts))
  {
    if |parts| > 1 {
      PlainPathParts(parts[1..]);
    } else {
      assert NonEmpty(parts[1..]) == [];
    }
  }

  /** An accepted name leads to a place below the destination. */
  lemma {:induction false} ValidNameRoute(name: string)
    requires Verifier.ValidName(name)
    ensures PlainParts(RouteOf(name).path) && RouteOf(name).path != []
  {
    PlainPathParts(Split(name, '/'));
    var parts := Split(name, '/');
    assert parts[0] != "" by {
      if parts[0] == "" && |parts| == 1 {
        JoinOfSplit(name, '/');
      }
      SplitHead(name, '/');
    }
    assert parts[0] in NonEmpty(parts);
  }

  lemma {:induction false} SplitHead(s: string, sep: char)
    requires s != "" && s[0] != sep
    ensures Split(s, sep)[0] != ""
  {
  }

  /** What is before the last slash. */
  function CutAtLastSlash(name: string): string {
    if '/' in name then name[..LastIndexOf(name, '/')] else ""
  }

  lemma {:induction false} ParentTokens(env: Env, name: string)
    requires name != ""
    ensures Tokens(CutAtLastSlash(name), '/') == env.ParentOf(RouteOf(name))
  {
    if '/' in name {
      LastIndexOfLast(name, '/');
      var i := LastIndexOf(name, '/');
      var a, b := name[..i], name[i + 1..];
      assert name == a + ['/'] + b;
      TokensAppend(a, b, '/');
      TokensOfPiece(b, '/');
      assert b != "" ==> b[|b| - 1] == name[|name| - 1];
      if b == "" {
        assert Tokens(a, '/') + [] == Tokens(a, '/');
      } else {
        assert (Tokens(a, '/') + [b])[..|Tokens(a, '/')|] == Tokens(a, '/');
      }
    } else {
      TokensOfPiece(name, '/');
      TokensOfPiece("", '/');
      assert [name][..0] == [];
    }
  }

  lemma {:induction false} PrefixHasToBeMade(env: Env, nodes: Nodes, p: Path, k: nat)
    requires k <= |p| && env.MakeDirectories(nodes, p[..k]).None?
    ensures env.MakeDirectories(nodes, p).None?
    decreases |p|
  {
    if k < |p| {
      assert p[..|p| - 1][..k] == p[..k];
      PrefixHasToBeMade(env, nodes, p[..|p| - 1], k);
    } else {
      assert p[..k] == p;
    }
  }

  method EnsureSafeParent(fs: Files, name: string) returns (ok: bool)
    requires Ready(fs, 0) && Verifier.ValidName(name)
    modifies fs
    ensures Ready(fs, 0)
    ensures var made := fs.env.MakeDirectories(old(fs.nodes), fs.env.ParentOf(RouteOf(name)));
            (ok ==> made == Some(fs.nodes)) && (fs.reliable ==> (ok <==> made.Some?))
    ensures ok ==> fs.env.ParentOf(RouteOf(name)) in fs.nodes && fs.nodes[fs.env.ParentOf(RouteOf(name))].Directory?
  {
    var components := Tokens(CutAtLastSlash(name), '/');
    ParentTokens(fs.env, name);
    ValidNameRoute(name);
    ok := EnsureDirectories(fs, components);
  }

  method EnsureDirectories(fs: Files, components: Path) returns (ok: bool)
    requires Ready(fs, 0) && PlainParts(components)
    modifies fs
    ensures Ready(fs, 0)
    ensures var made := fs.env.MakeDirectories(old(fs.nodes), components);
            (ok ==> made == Some(fs.nodes)) && (fs.reliable ==> (ok <==> made.Some?))
    ensures ok ==> components in fs.nodes && fs.nodes[components].Directory?
  {
    ghost var start := fs.nodes;
    for k := 0 to |components|
      invariant Ready(fs, 0)
      invariant fs.env.MakeDirectories(start, components[..k]) == Some(fs.nodes)
      invariant components[..k] in fs.nodes && fs.nodes[components[..k]].Directory?
    {
      var current := components[..k + 1];
      assert Parent(current) == components[..k];
      var made := EnsureDirectory(fs, current);
      if !made {
        if fs.reliable {
          PrefixHasToBeMade(fs.env, start, components, k + 1);
        }
        return false;
      }
    }
    assert components[..|components|] == components;
    return true;
  }

  // ----- Files

  /** The open file p holds the text behind what it held. */
  ghost predicate Grown(before: Nodes, after: Nodes, p: Path, text: string)
    requires p in before && before[p].File?
  {
    after == before[p := File(before[p].perm, before[p].owner, before[p].data + text)]
  }

  /** The inner loop of copy_exact_to_fd: writes until all of a chunk is taken. */
  method WriteAll(fs: Files, p: Path, chunk: string) returns (ok: bool, ghost taken: nat)
    requires p in fs.nodes && fs.nodes[p].File?
    modifies fs`nodes, fs`events
    ensures OnlyPlaced(old(fs.events), fs.events)
    ensures taken <= |chunk| && Grown(old(fs.nodes), fs.nodes, p, chunk[..taken])
    ensures ok ==> taken == |chunk|
    ensures fs.reliable ==> ok
  {
    var offset := 0;
    assert old(fs.nodes)[p].data + chunk[..0] == old(fs.nodes)[p].data;
    while offset < |chunk|
      invariant 0 <= offset <= |chunk| && Grown(old(fs.nodes), fs.nodes, p, chunk[..offset])
      invariant OnlyPlaced(old(fs.events), fs.events)
    {
      var written := fs.Write(p, chunk[offset..]);
      if written <= 0 {
        return false, offset;
      }
      ghost var before := old(fs.nodes)[p].data;
      assert before + chunk[..offset] + chunk[offset..][..written] == before + chunk[..offset + written];
      offset := offset + written;
    }
    return true, offset;
  }

  lemma {:induction false} AdjacentSlices(s: string, a: nat, b: nat, c: nat)
    requires a <= b <= c <= |s|
    ensures s[a..b] + s[b..c] == s[a..c]
  {
  }

  /** One turn of copy_exact_to_fd: reads a chunk and writes it behind what was taken
      since the nodes were these. */
  method CopyChunk(fs: Files, reader: Reader, p: Path, wanted: nat, ghost origin: Nodes, ghost taken: string)
    returns (ok: bool, ghost more: string)
    requires reader.Valid() && p in origin && origin[p].File? && Grown(origin, fs.nodes, p, taken)
    modifies reader, fs`nodes, fs`events
    ensures reader.Valid() && OnlyPlaced(old(fs.events), fs.events) && Grown(origin, fs.nodes, p, taken + more)
    ensures ok ==> reader.pos == old(reader.pos) + wanted <= |reader.data|
                   && more == reader.data[old(reader.pos)..reader.pos]
    ensures fs.reliable && old(reader.pos) + wanted <= |reader.data| ==> ok
  {
    more := "";
    assert taken + more == taken;
    var chunk := reader.ReadExact(wanted);
    if chunk.None? {
      return false, more;
    }
    ghost var count;
    ok, count := WriteAll(fs, p, chunk.value);
    more := chunk.value[..count];
    assert origin[p].data + taken + more == origin[p].data + (taken + more);
  }

  /** copy_exact_to_fd */
  method CopyExact(fs: Files, reader: Reader, p: Path, size: nat) returns (ok: bool, ghost taken: string)
    requires reader.Valid() && p in fs.nodes && fs.nodes[p].File?
    modifies reader, fs`nodes, fs`events
    ensures reader.Valid() && OnlyPlaced(old(fs.events), fs.events)
    ensures Grown(old(fs.nodes), fs.nodes, p, taken)
    ensures ok ==> reader.pos == old(reader.pos) + BodySize(size) <= |reader.data|
                   && taken == reader.data[old(reader.pos)..old(reader.pos) + size]
    ensures fs.reliable && old(reader.pos) + BodySize(size) <= |reader.data| ==> ok
  {
    var remaining := size;
    ghost var start, origin := reader.pos, fs.nodes;
    taken := "";
    assert origin[p].data + taken == origin[p].data;
    while remaining > 0
      invariant reader.Valid() && 0 <= remaining <= size && reader.pos == start + size - remaining
      invariant taken == reader.data[start..reader.pos] && Grown(origin, fs.nodes, p, taken)
      invariant OnlyPlaced(old(fs.events), fs.events)
    {
      var wanted := if remaining > 65536 then 65536 else remaining;
      ghost var more, from := "", reader.pos;
      ok, more := CopyChunk(fs, reader, p, wanted, origin, taken);
      taken := taken + more;
      if !ok {
        return;
      }
      AdjacentSlices(reader.data, start, from, reader.pos);
      remaining := remaining - wanted;
    }
    ok := reader.ReadPadding(size);
  }

  /** Fills an open file and gives it its owner and mode. */
  method FillFile(fs: Files, reader: Reader, p: Path, h: Header) returns (ok: bool)
    requires reader.Valid() && p in fs.nodes && fs.nodes[p].File?
    requires fs.nodes[p].owner == fs.env.caller && fs.nodes[p].data == ""
    modifies reader, fs`nodes, fs`events
    ensures reader.Valid() && OnlyPlaced(old(fs.events), fs.events)
    ensures p in fs.nodes && fs.nodes[p].File? && fs.nodes == old(fs.nodes)[p := fs.nodes[p]]
    ensures ok ==>
      && reader.pos == old(reader.pos) + BodySize(h.fileSize) <= |reader.data|
      && fs.nodes[p] == File(Permissions(h.mode), fs.env.Chowned(fs.env.caller, h.uid, h.gid),
                             reader.data[old(reader.pos)..old(reader.pos) + h.fileSize])
    ensures fs.reliable && old(reader.pos) + BodySize(h.fileSize) <= |reader.data| ==> ok
  {
    ghost var taken;
    ok, taken := CopyExact(fs, reader, p, h.fileSize);
    if ok {
      assert "" + taken == taken;
      ok := fs.Seal(p, h.mode, h.uid, h.gid);
    }
  }

  lemma {:induction false} Overwritten(nodes: Nodes, p: Path, first: Node, second: Node)
    ensures nodes[p := first][p := second] == nodes[p := second]
  {
  }

  /** A regular file: created under a new name, filled, sealed. */
  method ExtractFile(fs: Files, reader: Reader, r: Route, h: Header) returns (ok: bool)
    requires Ready(fs, 0) && reader.Valid() && r.path != [] && Held(fs.nodes, r.path)
    modifies reader, fs
    ensures reader.Valid() && Ready(fs, 0)
    ensures ok ==>
      && reader.pos == old(reader.pos) + BodySize(h.fileSize) <= |reader.data| && !r.slash && r.path !in old(fs.nodes)
      && fs.nodes == old(fs.nodes)[r.path := File(Permissions(h.mode), fs.env.Chowned(fs.env.caller, h.uid, h.gid),
                                                  reader.data[old(reader.pos)..old(reader.pos) + h.fileSize])]
    ensures fs.reliable && old(reader.pos) + BodySize(h.fileSize) <= |reader.data|
            ==> (ok <==> !r.slash && r.path !in old(fs.nodes))
  {
    WalkInside(fs.env, fs.nodes, Parent(r.path));
    ghost var start := fs.nodes;
    ok := fs.Create(r, Permissions(h.mode));
    if ok {
      ghost var created := fs.nodes[r.path];
      ok := FillFile(fs, reader, r.path, h);
      RootedAfter(start, r.path, fs.nodes[r.path]);
      Overwritten(start, r.path, created, fs.nodes[r.path]);
    }
  }

  // ----- One entry

  /** A directory may be there already. */
  method ExtractDirectory(fs: Files, reader: Reader, r: Route, size: nat) returns (ok: bool)
    requires Ready(fs, 0) && reader.Valid() && r.path != [] && Held(fs.nodes, r.path)
    requires r.slash ==> r.path in fs.nodes && fs.nodes[r.path].Directory?
    modifies reader, fs
    ensures reader.Valid() && Ready(fs, 0)
    ensures ok ==>
      && reader.pos == old(reader.pos) + BodySize(size)
      && (r.path in old(fs.nodes) ==> old(fs.nodes)[r.path].Directory?)
      && fs.nodes == if r.path in old(fs.nodes) then old(fs.nodes) else old(fs.nodes)[r.path := fs.env.NewDirectory()]
    ensures fs.reliable && old(reader.pos) + BodySize(size) <= |reader.data|
            ==> (ok <==> r.path !in old(fs.nodes) || old(fs.nodes)[r.path].Directory?)
  {
    WalkInside(fs.env, fs.nodes, Parent(r.path));
    RootedAfter(fs.nodes, r.path, fs.env.NewDirectory());
    var made := fs.Mkdir(r);
    if made == Failed {
      return false;
    }
    WalkInside(fs.env, fs.nodes, Parent(r.path));
    var status := fs.Lstat(r);
    if !status.Found? || !status.node.Directory? {
      return false;
    }
    ok := reader.SkipData(size);
  }

  /** What the loop does with one entry behind its prefix; target is what a
      symbolic link points to, to be made later. */
  method ExtractEntry(fs: Files, reader: Reader, p: Prefix, ghost e: Entry) returns (ok: bool, target: string)
    requires Ready(fs, 0) && reader.Valid() && reader.pos + BodySize(p.header.fileSize) <= |reader.data|
    requires e == Verifier.EntryAt(p, reader.data, reader.pos) && Verifier.ValidName(p.name)
    modifies reader, fs
    ensures reader.Valid() && Ready(fs, 0)
    ensures var placed := fs.env.PlaceEntry(old(fs.nodes), e);
            (ok ==> placed == Some(fs.nodes)) && (fs.reliable && AllowedType(e.mode) ==> (ok <==> placed.Some?))
    ensures ok ==> reader.pos == old(reader.pos) + BodySize(p.header.fileSize)
    ensures ok && IsLink(e.mode) ==> target == e.data
  {
    target := "";
    ok := EnsureSafeParent(fs, p.name);
    if ok {
      ok, target := ExtractLeaf(fs, reader, p, e);
    }
  }

  /** The same behind ensure_safe_parent. */
  method ExtractLeaf(fs: Files, reader: Reader, p: Prefix, ghost e: Entry) returns (ok: bool, target: string)
    requires Ready(fs, 0) && reader.Valid() && reader.pos + BodySize(p.header.fileSize) <= |reader.data|
    requires e == Verifier.EntryAt(p, reader.data, reader.pos) && Verifier.ValidName(p.name)
    requires fs.env.ParentOf(RouteOf(p.name)) in fs.nodes && fs.nodes[fs.env.ParentOf(RouteOf(p.name))].Directory?
    modifies reader, fs
    ensures reader.Valid() && Ready(fs, 0)
    ensures var placed := fs.env.PlaceLeaf(old(fs.nodes), e);
            (ok ==> placed == Some(fs.nodes)) && (fs.reliable && AllowedType(e.mode) ==> (ok <==> placed.Some?))
    ensures ok ==> reader.pos == old(reader.pos) + BodySize(p.header.fileSize)
    ensures ok && IsLink(e.mode) ==> target == e.data
  {
    target := "";
    ok := true;
    var r := RouteOf(p.name);
    ValidNameRoute(p.name);
    assert Held(fs.nodes, fs.env.ParentOf(r));
    if IsDirectory(p.header.mode) {
      ok := ExtractDirectory(fs, reader, r, p.header.fileSize);
    } else if IsRegular(p.header.mode) {
      ok := ExtractFile(fs, reader, r, p.header);
    } else {
      var data := reader.ReadData(p.header.fileSize);
      target := data.value;
    }
  }

  // ----- What the first phase leaves behind

  /** More nodes, and those there were unchanged. */
  predicate Extends(before: Nodes, after: Nodes) {
    forall p :: p in before ==> p in after && after[p] == before[p]
  }

  lemma {:induction false} MadeDirectories(env: Env, nodes: Nodes, p: Path)
    requires env.MakeDirectories(nodes, p).Some?
    ensures var n := env.MakeDirectories(nodes, p).value;
            && Extends(nodes, n)
            && (forall q :: q in n && q !in nodes ==> n[q] == env.NewDirectory() && q != [] && q <= p)
            && (p != [] ==> p in n && n[p].Directory?)
    decreases |p|
  {
    if p != [] {
      MadeDirectories(env, nodes, Parent(p));
      assert p[..|p| - 1] <= p;
    }
  }

  /** What was placed under this name hangs in a directory, and is one if it should be. */
  predicate Based(nodes: Nodes, name: string, directory: bool) {
    var p := RouteOf(name).path;
    p != [] && Held(nodes, p) && (directory ==> p in nodes && nodes[p].Directory?)
  }

  /** A test of names and of whether they are directories. */
  type Test = (string, bool) -> bool

  function BasedIn(nodes: Nodes): Test { (name, directory) => Based(nodes, name, directory) }

  predicate All(test: Test, es: seq<Entry>) {
    forall i :: 0 <= i < |es| ==> test(es[i].name, IsDirectory(es[i].mode))
  }

  lemma {:induction false} BasedStays(before: Nodes, after: Nodes, name: string, directory: bool)
    requires Extends(before, after) && Based(before, name, directory)
    ensures Based(after, name, directory)
  {
  }

  lemma {:induction false} EntryPlaced(env: Env, nodes: Nodes, e: Entry)
    requires env.PlaceEntry(nodes, e).Some? && Verifier.ValidName(e.name)
    requires Rooted(nodes)
    ensures var n := env.PlaceEntry(nodes, e).value;
            Extends(nodes, n) && Based(n, e.name, IsDirectory(e.mode)) && Rooted(n)
  {
    var r := RouteOf(e.name);
    ValidNameRoute(e.name);
    MadeDirectories(env, nodes, env.ParentOf(r));
    var n := env.MakeDirectories(nodes, env.ParentOf(r)).value;
    RootedMade(env, nodes, r.path, env.ParentOf(r));
    assert Held(n, env.ParentOf(r));
    if IsDirectory(e.mode) || IsRegular(e.mode) {
      RootedAfter(n, r.path, env.PlaceEntry(nodes, e).value[r.path]);
    }
  }

  /** Making directories along plain components keeps the tree rooted. */
  lemma {:induction false} RootedMade(env: Env, nodes: Nodes, path: Path, p: Path)
    requires Rooted(nodes) && PlainParts(path) && p <= path && env.MakeDirectories(nodes, p).Some?
    ensures Rooted(env.MakeDirectories(nodes, p).value)
    decreases |p|
  {
    if p != [] {
      RootedMade(env, nodes, path, Parent(p));
      MadeDirectories(env, nodes, Parent(p));
      var n := env.MakeDirectories(nodes, Parent(p)).value;
      assert IsName(p[|p| - 1]);
      if p !in n {
        RootedAfter(n, p, env.NewDirectory());
      }
    }
  }

  // ----- The first phase: all entries

  lemma {:induction false} PrefixHasToBePlaced(env: Env, nodes: Nodes, es: seq<Entry>, k: nat)
    requires k <= |es| && env.PlaceEntries(nodes, es[..k]).None?
    ensures env.PlaceEntries(nodes, es).None?
    decreases |es|
  {
    if k < |es| {
      assert es[..|es| - 1][..k] == es[..k];
      PrefixHasToBePlaced(env, nodes, es[..|es| - 1], k);
    } else {
      assert es[..k] == es;
    }
  }

  /** The second parser finds what the first one found. */
  lemma {:induction false} NextParsed(front: Front, archive: string, pos: nat, es: seq<Entry>, p: Prefix, data: nat,
      next: nat)
    requires Sized(front) && pos <= |archive| && Parse(front, archive[pos..]) == Some(es)
    requires front(archive[pos..]) == Some(p) && data == pos + p.size && next == data + BodySize(p.header.fileSize)
    ensures p.name == TrailerName <==> es == []
    ensures es != [] ==> next <= |archive| && es[0] == Verifier.EntryAt(p, archive, data)
                         && Parse(front, archive[next..]) == Some(es[1..])
  {
    if p.name != TrailerName {
      Verifier.EntryNext(front, archive, pos, p, data, next);
      HeadAndTail(Verifier.EntryAt(p, archive, data), Parse(front, archive[next..]));
    }
  }

  predicate Safe(es: seq<Entry>) {
    es == [] || (Safe(es[..|es| - 1]) && SafeEntry(es[|es| - 1]))
  }

  /** An entry that may be placed. */
  predicate SafeEntry(e: Entry) { Verifier.ValidName(e.name) && AllowedType(e.mode) }

  lemma {:induction false} SafeAt(es: seq<Entry>, i: nat)
    requires Safe(es) && i < |es|
    ensures SafeEntry(es[i])
    decreases |es|
  {
    if i < |es| - 1 {
      SafeAt(es[..|es| - 1], i);
    }
  }

  lemma {:induction false} SafePrefix(es: seq<Entry>, k: nat)
    requires Safe(es) && k <= |es|
    ensures Safe(es[..k])
    decreases |es|
  {
    if k < |es| {
      SafePrefix(es[..|es| - 1], k);
      assert es[..|es| - 1][..k] == es[..k];
    } else {
      assert es[..k] == es;
    }
  }

  /** What every placement keeps holds in the end. */
  lemma {:induction false} FoldKeeps(place: Placer, keeps: (Nodes, seq<Entry>) -> bool, safe: Entry -> bool,
      nodes: Nodes, es: seq<Entry>)
    requires keeps(nodes, []) && forall i :: 0 <= i < |es| ==> safe(es[i])
    requires forall n, done, e {:trigger keeps(n, done), place(n, e)} ::
               keeps(n, done) && safe(e) && place(n, e).Some? ==> keeps(place(n, e).value, done + [e])
    requires Fold(place, nodes, es).Some?
    ensures keeps(Fold(place, nodes, es).value, es)
  {
    if es != [] {
      var init, e := es[..|es| - 1], es[|es| - 1];
      FoldKeeps(place, keeps, safe, nodes, init);
      assert es == init + [e];
    }
  }

  /** What holds when these entries have been placed. */
  ghost predicate Grounded(start: Nodes, n: Nodes, es: seq<Entry>) {
    Extends(start, n) && All(BasedIn(n), es) && Rooted(n)
  }

  lemma {:induction false} GroundedStep(env: Env, start: Nodes, before: Nodes, es: seq<Entry>, e: Entry)
    requires Grounded(start, before, es) && SafeEntry(e) && env.PlaceEntry(before, e).Some?
    ensures Grounded(start, env.PlaceEntry(before, e).value, es + [e])
  {
    EntryPlaced(env, before, e);
    AllBasedStep(before, env.PlaceEntry(before, e).value, es, e);
  }

  lemma {:induction false} AllBasedStep(before: Nodes, after: Nodes, es: seq<Entry>, e: Entry)
    requires Extends(before, after) && All(BasedIn(before), es) && Based(after, e.name, IsDirectory(e.mode))
    ensures All(BasedIn(after), es + [e])
  {
    forall i | 0 <= i < |es| ensures Based(after, es[i].name, IsDirectory(es[i].mode)) {
      assert BasedIn(before)(es[i].name, IsDirectory(es[i].mode));
      BasedStays(before, after, es[i].name, IsDirectory(es[i].mode));
    }
  }

  lemma {:induction false} AllPlaced(env: Env, nodes: Nodes, es: seq<Entry>)
    requires Rooted(nodes) && Safe(es) && env.PlaceEntries(nodes, es).Some?
    ensures Grounded(nodes, env.PlaceEntries(nodes, es).value, es)
  {
    ghost var keeps := (n: Nodes, done: seq<Entry>) => Grounded(nodes, n, done);
    forall n, done, e | keeps(n, done) && SafeEntry(e) && env.Placing()(n, e).Some?
      ensures keeps(env.Placing()(n, e).value, done + [e]) {
      GroundedStep(env, nodes, n, done, e);
    }
    forall i | 0 <= i < |es| ensures SafeEntry(es[i]) {
      SafeAt(es, i);
    }
    FoldKeeps(env.Placing(), keeps, e => SafeEntry(e), nodes, es);
  }

  /** The checks of the loop and what it does with an entry. */
  method TakeEntry(fs: Files, reader: Reader, p: Prefix, ghost e: Entry) returns (ok: bool, target: string)
    requires Ready(fs, 0) && reader.Valid() && reader.pos + BodySize(p.header.fileSize) <= |reader.data|
    requires e == Verifier.EntryAt(p, reader.data, reader.pos) && Verifier.ValidName(p.name)
    requires AllowedType(p.header.mode)
    modifies reader, fs
    ensures reader.Valid() && Ready(fs, 0)
    ensures var placed := fs.env.PlaceEntry(old(fs.nodes), e);
            (ok ==> placed == Some(fs.nodes)) && (fs.reliable ==> (ok <==> placed.Some?))
    ensures ok ==> reader.pos == old(reader.pos) + BodySize(p.header.fileSize)
    ensures ok && IsLink(e.mode) ==> target == e.data
  {
    var valid := Verifier.IsValidName(p.name);
    if !valid || !AllowedType(p.header.mode) {
      assert false;
      return false, "";
    }
    ok, target := ExtractEntry(fs, reader, p, e);
  }

  /** Reads the next prefix; None at the trailer. */
  method ReadNext(reader: Reader, ghost rest: seq<Entry>) returns (r: Option<Prefix>, ghost next: nat)
    requires reader.Valid() && Parse(reader.front, reader.data[reader.pos..]) == Some(rest)
    modifies reader
    ensures reader.Valid()
    ensures r.None? <==> rest == []
    ensures r.Some? ==>
      && next == reader.pos + BodySize(r.value.header.fileSize) <= |reader.data|
      && rest[0] == Verifier.EntryAt(r.value, reader.data, reader.pos)
      && Parse(reader.front, reader.data[next..]) == Some(rest[1..])
  {
    ghost var pos := reader.pos;
    r := reader.ReadPrefix();
    ghost var p := r.value;
    next := reader.pos + BodySize(p.header.fileSize);
    NextParsed(reader.front, reader.data, pos, rest, p, reader.pos, next);
    if r.value.name == TrailerName {
      r := None;
    }
  }

  /** The two lists, with one more entry sorted into them. */
  method Defer(symlinks: seq<Entry>, directories: seq<Entry>, h: Header, name: string, target: string,
      ghost es: seq<Entry>, ghost e: Entry)
    returns (symlinks': seq<Entry>, directories': seq<Entry>)
    requires symlinks == Links(es) && directories == Directories(es)
    requires h.mode == e.mode && h.uid == e.uid && h.gid == e.gid && name == e.name
    requires (IsLink(e.mode) ==> target == e.data)
    ensures symlinks' == Links(es + [e]) && directories' == Directories(es + [e])
  {
    symlinks', directories' := symlinks, directories;
    assert (es + [e])[..|es|] == es;
    if IsDirectory(h.mode) {
      directories' := directories + [Entry(h.mode, h.uid, h.gid, name, "")];
    } else if IsLink(h.mode) {
      symlinks' := symlinks + [Entry(h.mode, 0, 0, name, target)];
    }
  }

  /** The tree and the two lists, when these entries have been placed. */
  ghost predicate Midway(fs: Files, start: Nodes, done: seq<Entry>, symlinks: seq<Entry>, directories: seq<Entry>)
    reads fs
  {
    && fs.env.PlaceEntries(start, done) == Some(fs.nodes)
    && symlinks == Links(done) && directories == Directories(done)
  }

  method Advance(fs: Files, reader: Reader, p: Prefix, symlinks: seq<Entry>, directories: seq<Entry>,
                 ghost start: Nodes, ghost done: seq<Entry>, ghost e: Entry, ghost next: nat)
    returns (ok: bool, symlinks': seq<Entry>, directories': seq<Entry>)
    requires Ready(fs, 0) && reader.Valid() && next == reader.pos + BodySize(p.header.fileSize) <= |reader.data|
    requires e == Verifier.EntryAt(p, reader.data, reader.pos) && Verifier.ValidName(e.name) && AllowedType(e.mode)
    requires Midway(fs, start, done, symlinks, directories)
    modifies reader, fs
    ensures reader.Valid() && Ready(fs, 0)
    ensures ok ==> reader.pos == next && Midway(fs, start, done + [e], symlinks', directories')
    ensures fs.reliable ==> (ok <==> fs.env.PlaceEntries(start, done + [e]).Some?)
  {
    assert (done + [e])[..|done|] == done;
    var target;
    ok, target := TakeEntry(fs, reader, p, e);
    symlinks', directories' := symlinks, directories;
    if ok {
      symlinks', directories' := Defer(symlinks, directories, p.header, p.name, target, done, e);
    }
  }

  /** The extraction loop. Its own checks of names and types never fail: the
      verifier has made them. */
  method ExtractEntries(fs: Files, reader: Reader, ghost es: seq<Entry>)
    returns (ok: bool, symlinks: seq<Entry>, directories: seq<Entry>)
    requires Ready(fs, 0) && reader.Valid() && reader.pos == 0
    requires Parse(reader.front, reader.data) == Some(es) && Safe(es)
    modifies reader, fs
    ensures Ready(fs, 0)
    ensures ok ==> Midway(fs, old(fs.nodes), es, symlinks, directories)
    ensures fs.reliable ==> (ok <==> fs.env.PlaceEntries(old(fs.nodes), es).Some?)
  {
    symlinks, directories := [], [];
    ghost var start, k := fs.nodes, 0;
    assert reader.data[0..] == reader.data && es[0..] == es;
    while true
      invariant Ready(fs, 0) && reader.Valid() && k <= |es|
      invariant Parse(reader.front, reader.data[reader.pos..]) == Some(es[k..])
      invariant Midway(fs, start, es[..k], symlinks, directories)
      decreases |es| - k
    {
      var prefix, next := ReadNext(reader, es[k..]);
      if prefix.None? {
        assert es[..k] == es;
        return true, symlinks, directories;
      }
      Around(es, k);
      SafeAt(es, k);
      ok, symlinks, directories :=
        Advance(fs, reader, prefix.value, symlinks, directories, start, es[..k], es[k], next);
      if !ok {
        if fs.reliable {
          PrefixHasToBePlaced(fs.env, start, es, k + 1);
        }
        return;
      }
      k := k + 1;
    }
  }

  lemma {:induction false} Around<T>(s: seq<T>, k: nat)
    requires k < |s|
    ensures s[k..][0] == s[k] && s[k..][1..] == s[k + 1..] && s[..k] + [s[k]] == s[..k + 1]
  {
  }

  // ----- The second phase: links

  lemma {:induction false} DeferredHold(test: Test, es: seq<Entry>)
    requires All(test, es)
    ensures All(test, Links(es)) && All(test, Directories(es))
    ensures forall i :: 0 <= i < |Directories(es)| ==> IsDirectory(Directories(es)[i].mode)
  {
    if es != [] {
      DeferredHold(test, es[..|es| - 1]);
    }
  }

  lemma {:induction false} LinkHasToBePlaced(env: Env, nodes: Nodes, links: seq<Entry>, k: nat)
    requires k <= |links| && env.PlaceLinks(nodes, links[..k]).None?
    ensures env.PlaceLinks(nodes, links).None?
    decreases |links|
  {
    if k < |links| {
      assert links[..|links| - 1][..k] == links[..k];
      LinkHasToBePlaced(env, nodes, links[..|links| - 1], k);
    } else {
      assert links[..k] == links;
    }
  }

  lemma {:induction false} HeldStays(before: Nodes, after: Nodes, e: Entry, test: Test)
    requires Extends(before, after) && Tests(test, before) && test(e.name, IsDirectory(e.mode))
    ensures Based(after, e.name, false)
  {
    assert Based(before, e.name, IsDirectory(e.mode));
    BasedStays(before, after, e.name, false);
  }

  method ExtractLink(fs: Files, e: Entry) returns (ok: bool)
    requires Ready(fs, 1) && Based(fs.nodes, e.name, false)
    modifies fs
    ensures Ready(fs, 1) && Extends(old(fs.nodes), fs.nodes)
    ensures ok ==> fs.env.PlaceLink(old(fs.nodes), e) == Some(fs.nodes)
    ensures fs.reliable ==> (ok <==> fs.env.PlaceLink(old(fs.nodes), e).Some?)
  {
    var r := RouteOf(e.name);
    WalkInside(fs.env, fs.nodes, Parent(r.path));
    if r.path !in fs.nodes {
      RootedAfter(fs.nodes, r.path, Link(e.data));
    }
    ok := fs.Symlink(e.data, r);
  }

  /** test is BasedIn of the tree at the start, seen as any test. */
  ghost predicate Tests(test: Test, nodes: Nodes) {
    forall name, directory {:trigger Based(nodes, name, directory)} ::
      test(name, directory) == Based(nodes, name, directory)
  }

  method ExtractLinks(fs: Files, links: seq<Entry>, ghost test: Test) returns (ok: bool)
    requires Ready(fs, 1) && Tests(test, fs.nodes) && All(test, links)
    modifies fs
    ensures Ready(fs, 1) && Extends(old(fs.nodes), fs.nodes)
    ensures ok ==> fs.env.PlaceLinks(old(fs.nodes), links) == Some(fs.nodes)
    ensures fs.reliable ==> (ok <==> fs.env.PlaceLinks(old(fs.nodes), links).Some?)
  {
    ghost var start := fs.nodes;
    for i := 0 to |links|
      invariant Ready(fs, 1) && Extends(start, fs.nodes)
      invariant fs.env.PlaceLinks(start, links[..i]) == Some(fs.nodes)
    {
      assert links[..i + 1][..i] == links[..i];
      HeldStays(start, fs.nodes, links[i], test);
      ok := ExtractLink(fs, links[i]);
      if !ok {
        if fs.reliable {
          LinkHasToBePlaced(fs.env, start, links, i + 1);
        }
        return;
      }
    }
    assert links[..|links|] == links;
    return true;
  }

  // ----- The third phase: directory metadata

  ghost predicate Closing(fs: Files)
    reads fs
  {
    Rooted(fs.nodes) && !fs.escaped && Phased(fs.events, 2)
  }

  /** The same paths, with directories where directories were. */
  ghost predicate SameShape(before: Nodes, after: Nodes) {
    && (forall p :: p in before <==> p in after)
    && (forall p :: p in after ==> (after[p].Directory? <==> before[p].Directory?))
  }

  method StampOne(fs: Files, e: Entry) returns (ok: bool)
    requires Closing(fs) && Based(fs.nodes, e.name, true)
    modifies fs
    ensures Closing(fs)
    ensures SameShape(old(fs.nodes), fs.nodes)
    ensures ok ==> fs.env.StampDirectory(old(fs.nodes), e) == Some(fs.nodes)
    ensures fs.reliable ==> (ok <==> fs.env.StampDirectory(old(fs.nodes), e).Some?)
  {
    var r := RouteOf(e.name);
    ghost var start := fs.nodes;
    WalkStays(fs.env, start, Parent(r.path));
    ok := fs.Stamp(r, e.mode, e.uid, e.gid);
    RootedAfter(start, r.path, fs.nodes[r.path]);
  }

  method StampAll(fs: Files, directories: seq<Entry>, ghost test: Test) returns (ok: bool)
    requires Closing(fs) && Tests(test, fs.nodes) && All(test, directories)
    requires forall i :: 0 <= i < |directories| ==> IsDirectory(directories[i].mode)
    modifies fs
    ensures Closing(fs)
    ensures ok ==> fs.env.StampDirectories(old(fs.nodes), directories) == Some(fs.nodes)
    ensures fs.reliable ==> (ok <==> fs.env.StampDirectories(old(fs.nodes), directories).Some?)
  {
    var index := |directories|;
    assert directories[..index] == directories;
    while index > 0
      invariant 0 <= index <= |directories| && Closing(fs) && SameShape(old(fs.nodes), fs.nodes)
      invariant fs.env.StampDirectories(old(fs.nodes), directories)
                == fs.env.StampDirectories(fs.nodes, directories[..index])
    {
      assert directories[..index][..index - 1] == directories[..index - 1];
      DirectoryStays(old(fs.nodes), fs.nodes, directories[index - 1].name, test);
      ok := StampOne(fs, directories[index - 1]);
      if !ok {
        return;
      }
      index := index - 1;
    }
    return true;
  }

  lemma {:induction false} DirectoryStays(before: Nodes, after: Nodes, name: string, test: Test)
    requires SameShape(before, after) && Tests(test, before) && test(name, true)
    ensures Based(after, name, true)
  {
    assert Based(before, name, true);
  }

  // ----- The whole of it

  lemma {:induction false} AllStay(before: Nodes, after: Nodes, es: seq<Entry>)
    requires Extends(before, after) && All(BasedIn(before), es)
    ensures All(BasedIn(after), es)
  {
    forall i | 0 <= i < |es| ensures Based(after, es[i].name, IsDirectory(es[i].mode)) {
      assert BasedIn(before)(es[i].name, IsDirectory(es[i].mode));
      BasedStays(before, after, es[i].name, IsDirectory(es[i].mode));
    }
  }

  lemma {:induction false} BasedInTests(nodes: Nodes)
    ensures Tests(BasedIn(nodes), nodes)
  {
  }

  /** The three phases on an empty directory. */
  method LayOut(fs: Files, reader: Reader, ghost es: seq<Entry>) returns (ok: bool)
    requires Ready(fs, 0) && reader.Valid() && reader.pos == 0
    requires Parse(reader.front, reader.data) == Some(es) && Safe(es)
    modifies reader, fs
    ensures Closing(fs)
    ensures ok ==> fs.env.Extracted(old(fs.nodes), es) == Some(fs.nodes)
    ensures fs.reliable ==> (ok <==> fs.env.Extracted(old(fs.nodes), es).Some?)
  {
    ghost var start := fs.nodes;
    var symlinks, directories;
    ok, symlinks, directories := ExtractEntries(fs, reader, es);
    if !ok {
      return;
    }
    AllPlaced(fs.env, start, es);
    DeferredHold(BasedIn(fs.nodes), es);
    BasedInTests(fs.nodes);
    ghost var placed := fs.nodes;
    ok := ExtractLinks(fs, symlinks, BasedIn(fs.nodes));
    if !ok {
      return;
    }
    AllStay(placed, fs.nodes, directories);
    BasedInTests(fs.nodes);
    ok := StampAll(fs, directories, BasedIn(fs.nodes));
  }

  lemma {:induction false} AcceptedAreSafe(policy: Verifier.Policy, es: seq<Entry>)
    requires Verifier.Accepted(Verifier.Acceptance(policy), es)
    ensures Safe(es)
  {
    if es != [] {
      AcceptedAreSafe(policy, es[..|es| - 1]);
      assert Verifier.EntryAccepted(policy, es[..|es| - 1], es[|es| - 1]);
    }
  }

  /** The tree that extracting this archive gives, if it can be extracted. */
  function ExtractedFrom(policy: Verifier.Policy, env: Env, start: Nodes, archive: string): Option<Nodes> {
    if start.Keys != {[]} || Verifier.Verified(policy, Newc.PrefixOf, archive).None? then None
    else env.Extracted(start, Parse(Newc.PrefixOf, archive).value)
  }

  /** bp_cpio_extract_internal. However the run ends, nothing was done outside of
      the destination and the phases came in their order. */
  method Extract(policy: Verifier.Policy, fs: Files, archive: string) returns (r: Option<Verifier.Info>)
    requires Ready(fs, 0)
    modifies fs
    ensures Closing(fs)
    ensures r.Some? ==> r == Verifier.Verified(policy, Newc.PrefixOf, archive)
                        && ExtractedFrom(policy, fs.env, old(fs.nodes), archive) == Some(fs.nodes)
    ensures fs.reliable ==> (r.Some? <==> ExtractedFrom(policy, fs.env, old(fs.nodes), archive).Some?)
  {
    r := Verifier.VerifyArchive(policy, archive);
    if r.None? || fs.nodes.Keys != {[]} {
      return None;
    }
    ghost var es := Parse(Newc.PrefixOf, archive).value;
    AcceptedAreSafe(policy, es);
    var reader := new Reader(archive);
    var ok := LayOut(fs, reader, es);
    if !ok {
      r := None;
    }
  }
}
