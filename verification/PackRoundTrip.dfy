/**
  Packing a tree and extracting the archive gives the tree back.
*/
module PackRoundTrip {
  import opened CStrings
  import opened Archive
  import opened FileTree
  import opened Packing
  import opened Packer
  import Extraction
  import ExtractionMeaning
  import Newc
  import Tidy
  import Verifier

  function OwnerFor(env: Env, m: Meta): Owner {
    if env.privileged then Owner(m.uid, m.gid) else env.caller
  }

  /** The same kind, permissions, contents, and, when root extracts, owner. Links
      have no permissions of their own. */
  predicate SameNode(env: Env, a: SourceNode, b: Node) {
    match a
    case RegularFile(m, data) => b == File(m.perm, OwnerFor(env, m), data)
    case SymbolicLink(_, target) => b == Link(target)
    case Folder(m) => b == Directory(m.perm, OwnerFor(env, m))
    case _ => false
  }

  /** n is the packed part of the source. */
  ghost predicate Mirrors(env: Env, s: Source, n: Nodes) {
    && (forall q :: Packed(s, q) ==> q in n && SameNode(env, s.nodes[q], n[q]))
    && (forall q :: q in n && q != [] ==> Packed(s, q))
  }

  // ----- From source nodes to entries

  lemma {:induction false} ModeBits(n: SourceNode)
    requires n.meta.perm < 0x1000
    ensures IsRegular(ModeOf(n)) <==> n.RegularFile?
    ensures IsLink(ModeOf(n)) <==> n.SymbolicLink?
    ensures IsDirectory(ModeOf(n)) <==> n.Folder? || n.MountPoint?
    ensures Permissions(ModeOf(n)) == n.meta.perm && ModeOf(n) <= Uint32Max
  {
  }

  lemma {:induction false} EntryIsWritable(s: Source, q: Path)
    requires Valid(s) && Packed(s, q) && Collectable(s, q) && Storable(NodeAt(s, q))
    ensures Writable(ItemFor(s, q))
  {
    assert Hangs(s.nodes, q);
    ModeBits(s.nodes[q]);
    NodesHaveFileNames(s, q);
    JoinEnds(q);
  }

  lemma {:induction false} SourceIsWritable(s: Source, paths: seq<Path>)
    requires Valid(s) && Archivable(s, paths)
    ensures forall i :: 0 <= i < |paths| ==> Writable(ItemsFor(s, paths)[i])
  {
    KeptIsPacked(s);
    KeptIff(s, Met(s, [], 0));
    forall i | 0 <= i < |paths| ensures Writable(ItemsFor(s, paths)[i]) {
      assert Packed(s, paths[i]) && paths[i] in paths;
      assert paths[i] in Kept(s, Met(s, [], 0));
      EntryIsWritable(s, paths[i]);
    }
  }

  /** The entries of the archive of a source. */
  function EntriesFor(s: Source, paths: seq<Path>): (es: seq<Entry>)
    ensures |es| == |paths|
  {
    seq(|paths|, i requires 0 <= i < |paths| => EntryFor(s, paths[i]))
  }

  /** An archive that its packer accepts parses to the entries of its source; the
      trailer's name is not among them. */
  lemma {:induction false} PackedParses(policy: Verifier.Policy, s: Source, paths: seq<Path>)
    requires Valid(s) && Archivable(s, paths) && Verifier.Verified(policy, Newc.PrefixOf, ArchiveOf(s, paths)).Some?
    ensures Parse(Newc.PrefixOf, ArchiveOf(s, paths)) == Some(EntriesFor(s, paths))
    ensures Verifier.Accepted(Verifier.Acceptance(policy), EntriesFor(s, paths))
  {
    SourceIsWritable(s, paths);
    Newc.NewcRoundTrip(ItemsFor(s, paths));
    assert Entries(ItemsFor(s, paths)) == EntriesFor(s, paths);
  }

  // ----- The order of the entries

  lemma {:induction false} RouteOfEntry(s: Source, q: Path)
    requires Valid(s) && Packed(s, q)
    ensures RouteOf(EntryFor(s, q).name) == Route(q, false)
  {
    NodesHaveFileNames(s, q);
    RouteOfName(q);
  }

  /** The directory above a packed path is packed, and stands before it. */
  lemma {:induction false} ParentFirst(s: Source, paths: seq<Path>, i: nat) returns (j: nat)
    requires Valid(s) && Canonical(s, paths) && i < |paths| && |paths[i]| > 1
    ensures j < i && paths[j] == Extraction.Parent(paths[i]) && s.nodes[paths[j]].Folder?
  {
    var q := paths[i];
    var p := Extraction.Parent(q);
    assert Packed(s, q);
    assert [] <= p < q;
    assert Packed(s, p) by {
      forall r | [] <= r < p ensures r in s.nodes && s.nodes[r].Folder? {
        assert [] <= r < q;
      }
    }
    j :| 0 <= j < |paths| && paths[j] == p;
    AncestorIsLess(p, q);
    if i <= j {
      CompareAntisymmetric(NameOf(p), NameOf(q));
    }
  }

  lemma {:induction false} PlacementsOfSource(s: Source, paths: seq<Path>)
    requires Valid(s) && Canonical(s, paths)
    ensures forall i :: 0 <= i < |paths| ==>
              Tidy.Placements(EntriesFor(s, paths))[i] == Tidy.Placement(paths[i], s.nodes[paths[i]].Folder?)
              && !RouteOf(EntriesFor(s, paths)[i].name).slash
  {
    forall i | 0 <= i < |paths|
      ensures Tidy.Placements(EntriesFor(s, paths))[i] == Tidy.Placement(paths[i], s.nodes[paths[i]].Folder?)
              && !RouteOf(EntriesFor(s, paths)[i].name).slash {
      assert Packed(s, paths[i]);
      RouteOfEntry(s, paths[i]);
      assert Hangs(s.nodes, paths[i]);
      ModeBits(s.nodes[paths[i]]);
    }
  }

  lemma {:induction false} LinksOfSource(s: Source, paths: seq<Path>, i: nat)
    requires Valid(s) && Canonical(s, paths) && i < |paths|
    ensures IsLink(EntriesFor(s, paths)[i].mode) ==> EntriesFor(s, paths)[i].data != ""
  {
    assert Packed(s, paths[i]);
    assert Hangs(s.nodes, paths[i]);
    ModeBits(s.nodes[paths[i]]);
  }

  /** The sorted archive is tidy: strcmp puts every directory before its contents. */
  lemma {:induction false} SourceIsTidy(s: Source, paths: seq<Path>)
    requires Valid(s) && Canonical(s, paths) && Extraction.Safe(EntriesFor(s, paths))
    ensures Tidy.IsTidy(EntriesFor(s, paths))
  {
    var ps := Tidy.Placements(EntriesFor(s, paths));
    PlacementsOfSource(s, paths);
    forall i | 0 <= i < |paths| ensures IsLink(EntriesFor(s, paths)[i].mode) ==> EntriesFor(s, paths)[i].data != "" {
      LinksOfSource(s, paths, i);
    }
    forall i, j | 0 <= i < j < |ps| ensures ps[i].path != ps[j].path {
      CompareAntisymmetric(NameOf(paths[i]), NameOf(paths[j]));
    }
    forall i | 0 <= i < |ps| ensures Tidy.ParentListed(ps, i) {
      if |paths[i]| > 1 {
        var j := ParentFirst(s, paths, i);
        assert ps[j] == Tidy.Placement(Extraction.Parent(ps[i].path), true);
      }
    }
  }

  // ----- From extracted nodes to source nodes

  lemma {:induction false} BecomesSame(env: Env, s: Source, q: Path, n: Node)
    requires Valid(s) && Packed(s, q) && Tidy.Becomes(env, EntryFor(s, q), n) && AllowedType(EntryFor(s, q).mode)
    ensures SameNode(env, s.nodes[q], n)
  {
    assert Hangs(s.nodes, q);
    ModeBits(s.nodes[q]);
  }

  lemma {:induction false} RepresentsMirrors(env: Env, s: Source, paths: seq<Path>, n: Nodes)
    requires Valid(s) && Canonical(s, paths) && Extraction.Safe(EntriesFor(s, paths))
    requires Tidy.Represents(env, EntriesFor(s, paths), n)
    ensures Mirrors(env, s, n)
  {
    var es := EntriesFor(s, paths);
    forall i | 0 <= i < |es| ensures ExtractionMeaning.PathOf(es[i]) == paths[i] {
      assert Packed(s, paths[i]);
      RouteOfEntry(s, paths[i]);
    }
    forall q | Packed(s, q) ensures q in n && SameNode(env, s.nodes[q], n[q]) {
      assert q in paths;
      var i :| 0 <= i < |paths| && paths[i] == q;
      assert ExtractionMeaning.PathOf(es[i]) == q;
      Extraction.SafeAt(es, i);
      BecomesSame(env, s, q, n[q]);
    }
    forall q | q in n && q != [] ensures Packed(s, q) {
      var i :| 0 <= i < |es| && ExtractionMeaning.PathOf(es[i]) == q;
    }
  }

  lemma {:induction false} ExtractedTree(env: Env, start: Nodes, s: Source, paths: seq<Path>)
    requires Valid(s) && Canonical(s, paths) && Extraction.Safe(EntriesFor(s, paths))
    requires Tidy.Fresh(env, start)
    ensures var n := env.Extracted(start, EntriesFor(s, paths)); n.Some? && Mirrors(env, s, n.value)
  {
    var es := EntriesFor(s, paths);
    SourceIsTidy(s, paths);
    Tidy.TidyMeans(env, start, es);
    RepresentsMirrors(env, s, paths, env.Extracted(start, es).value);
  }

  lemma {:induction false} ResultIs(policy: Verifier.Policy, env: Env, start: Nodes, archive: string, es: seq<Entry>)
    requires Parse(Newc.PrefixOf, archive) == Some(es) && start.Keys == {[]}
    requires Verifier.Verified(policy, Newc.PrefixOf, archive).Some?
    ensures Extraction.ExtractedFrom(policy, env, start, archive) == env.Extracted(start, es)
  {
  }

  /** The tree round trip: whatever the packer puts in place extracts, into an empty
      directory that can be entered, to the tree it was made from. */
  lemma {:induction false} PackThenExtract(policy: Verifier.Policy, env: Env, start: Nodes, s: Source, paths: seq<Path>)
    requires Valid(s) && Archivable(s, paths)
    requires Verifier.Verified(policy, Newc.PrefixOf, ArchiveOf(s, paths)).Some?
    requires Tidy.Fresh(env, start)
    ensures var n := Extraction.ExtractedFrom(policy, env, start, ArchiveOf(s, paths));
            n.Some? && Mirrors(env, s, n.value)
  {
    PackedParses(policy, s, paths);
    Extraction.AcceptedAreSafe(policy, EntriesFor(s, paths));
    ExtractedTree(env, start, s, paths);
    ResultIs(policy, env, start, ArchiveOf(s, paths), EntriesFor(s, paths));
  }

  lemma {:induction false} TrailerEndsEarly(s: Source, paths: seq<Path>)
    requires Valid(s) && Archivable(s, paths) && Packed(s, [TrailerName])
    ensures Parse(Newc.PrefixOf, ArchiveOf(s, paths)) == None
  {
    SourceIsWritable(s, paths);
    Newc.NewcRoundTrip(ItemsFor(s, paths));
    assert [TrailerName] in paths;
    var i :| 0 <= i < |paths| && paths[i] == [TrailerName];
    assert ItemsFor(s, paths)[i].entry.name == NameOf(paths[i]);
  }

  /** A file of the trailer's name at the root is never packed: the packer refuses
      the archive that it would cut short. */
  lemma {:induction false} TrailerNamedFile(policy: Verifier.Policy, s: Source, paths: seq<Path>)
    requires Valid(s) && Archivable(s, paths) && Packed(s, ["TRAILER!!!"])
    ensures Verifier.Verified(policy, Newc.PrefixOf, ArchiveOf(s, paths)) == None
  {
    TrailerEndsEarly(s, paths);
  }
}
