/**
  Which source trees bp_cpio_pack accepts, said about the tree alone, without the
  archive and without the verdict of the verifier on it.
*/
module Packability {
  import opened CStrings
  import opened Archive
  import opened FileTree
  import opened Packing
  import opened Packer
  import opened PackRoundTrip
  import opened SourceCheck
  import Config
  import Newc
  import Verifier

  /** The paths that are packed. */
  ghost function PackedPaths(s: Source): set<Path> { set q | q in s.nodes && Packed(s, q) }

  /** All that the walk meets has a type and a name that can be kept, the data fits
      its fields, and there is not too much of it. */
  ghost predicate Fits(s: Source) {
    && (forall q :: q != [] && Reaches(s, [], q) ==> Collectable(s, q))
    && (forall q :: Packed(s, q) ==> Storable(s.nodes[q]))
    && |PackedPaths(s)| <= Verifier.EntryLimit
  }

  /** Something of this kind is packed under the name. */
  ghost predicate Holds(s: Source, name: string, kind: SourceNode -> bool) {
    exists q :: Packed(s, q) && NameOf(q) == name && kind(s.nodes[q])
  }

  /** A text that the verifier keeps and parses. */
  predicate ConfigFile(n: SourceNode) {
    n.RegularFile? && |n.data| <= Verifier.ConfigLimit && NUL !in n.data
  }

  /** The configuration file, if there is one, is a text file. */
  ghost predicate ConfigKept(policy: Verifier.Policy, s: Source) {
    forall q :: Packed(s, q) && NameOf(q) == policy.config ==> ConfigFile(s.nodes[q])
  }

  /** The configuration that the recovery system will run with. */
  ghost predicate RunsWith(policy: Verifier.Policy, s: Source, runtime: Config.RuntimeConfig) {
    if exists q :: Packed(s, q) && NameOf(q) == policy.config then
      exists q :: Packed(s, q) && NameOf(q) == policy.config && ConfigFile(s.nodes[q])
                  && Config.ParsedRuntime(DataOf(s.nodes[q])) == Some(runtime)
    else runtime == Config.RuntimeDefault
  }

  /** The launcher can start the tree: a shell and the program, and for a handoff
      the entry it asks for. */
  ghost predicate Starts(policy: Verifier.Policy, s: Source, runtime: Config.RuntimeConfig) {
    && RunsWith(policy, s, runtime)
    && (policy.recovery ==>
          && Holds(s, policy.shell, Runnable) && Holds(s, policy.progress, Runnable)
          && (runtime.entryMode == Config.Handoff ==> Holds(s, Verifier.BelowRoot(runtime.entry), Regular)))
  }

  /** What the walk, the writer and the verifier ask of a source tree. */
  ghost predicate CanBeArchived(policy: Verifier.Policy, s: Source) {
    Fits(s) && !Packed(s, [TrailerName]) && exists runtime :: Starts(policy, s, runtime)
  }

  /** What packing asks of a source tree. */
  ghost predicate CanBePacked(policy: Verifier.Policy, s: Source) {
    SourceVerified(policy, s) && CanBeArchived(policy, s)
  }

  // ----- The walk and the writer

  lemma {:induction false} MetFromRoot(s: Source, q: Path)
    requires Valid(s)
    ensures q in Met(s, [], 0) <==> q != [] && Reaches(s, [], q)
  {
    MetIff(s, [], 0, q);
    MetAreNodes(s, [], 0);
    if q != [] {
      FirstStep(s, [], q);
    }
  }

  lemma {:induction false} CountPacked(s: Source, paths: seq<Path>)
    requires Valid(s) && Canonical(s, paths)
    ensures |paths| == |PackedPaths(s)|
  {
    assert NoDuplicates(paths) by {
      forall i, j | 0 <= i < j < |paths| ensures paths[i] != paths[j] {
        CompareAntisymmetric(NameOf(paths[i]), NameOf(paths[j]));
      }
    }
    AsSet(paths);
    assert (set q | q in paths) == PackedPaths(s);
  }

  lemma {:induction false} ArchivableIff(s: Source, paths: seq<Path>)
    requires Valid(s) && Canonical(s, paths)
    ensures Archivable(s, paths) <==> Fits(s)
  {
    CountPacked(s, paths);
    forall q ensures q in Met(s, [], 0) <==> q != [] && Reaches(s, [], q) {
      MetFromRoot(s, q);
    }
    forall q ensures q in paths <==> Packed(s, q) {
    }
  }

  // ----- The canonical order exists

  lemma {:induction false} Inserted(p: seq<Path>, x: Path) returns (r: seq<Path>)
    requires Increasing(p) && x !in p && x != [] && FileNames(x) && forall q :: q in p ==> q != [] && FileNames(q)
    ensures Increasing(r) && forall q :: q in r <==> q in p || q == x
  {
    if p == [] || Less(NameOf(x), NameOf(p[0])) {
      r := [x] + p;
      forall i | 0 <= i < |p| ensures Less(NameOf(x), NameOf(p[i])) {
        if i > 0 {
          LessTransitive(NameOf(x), NameOf(p[0]), NameOf(p[i]));
        }
      }
    } else {
      assert p == [p[0]] + p[1..];
      var rest := Inserted(p[1..], x);
      r := [p[0]] + rest;
      NamesDiffer(x, p[0]);
      CompareAntisymmetric(NameOf(x), NameOf(p[0]));
      forall i | 0 <= i < |rest| ensures Less(NameOf(p[0]), NameOf(rest[i])) {
        if rest[i] != x {
          assert rest[i] in p[1..];
        }
      }
    }
  }

  lemma {:induction false} InOrder(paths: set<Path>) returns (r: seq<Path>)
    requires forall q :: q in paths ==> q != [] && FileNames(q)
    ensures Increasing(r) && forall q :: q in r <==> q in paths
    decreases |paths|
  {
    if paths == {} {
      r := [];
    } else {
      var x :| x in paths;
      var rest := InOrder(paths - {x});
      r := Inserted(rest, x);
    }
  }

  lemma {:induction false} CanonicalExists(s: Source) returns (paths: seq<Path>)
    requires Valid(s)
    ensures Canonical(s, paths)
  {
    forall q | q in PackedPaths(s) ensures FileNames(q) {
      NodesHaveFileNames(s, q);
    }
    paths := InOrder(PackedPaths(s));
    forall i | 0 <= i < |paths| ensures Packed(s, paths[i]) {
      assert paths[i] in PackedPaths(s);
    }
  }

  // ----- The verdict

  lemma {:induction false} PlainParts(p: Path)
    requires p != [] && FileNames(p)
    ensures Config.PlainPath(p)
  {
    assert FileName(p[0]);
    if |p| > 1 {
      PlainParts(p[1..]);
    }
  }

  lemma {:induction false} PackedNameIsValid(s: Source, q: Path)
    requires Valid(s) && Packed(s, q) && Collectable(s, q)
    ensures Verifier.ValidName(NameOf(q))
  {
    NodesHaveFileNames(s, q);
    JoinEnds(q);
    PlainParts(q);
    assert forall c :: c in q ==> '/' !in c;
    SplitOfJoin(q, '/');
    assert FileName(q[0]);
    assert Join(q, '/')[0] == q[0][0];
    assert q[0][0] in q[0];
  }

  /** An entry made from the tree is sound but for what is asked of the configuration. */
  lemma {:induction false} EntryIsSound(policy: Verifier.Policy, s: Source, q: Path)
    requires Valid(s) && Packed(s, q) && Collectable(s, q) && Storable(s.nodes[q])
    ensures Verifier.SoundEntry(policy, EntryFor(s, q)) <==> (NameOf(q) == policy.config ==> ConfigFile(s.nodes[q]))
  {
    PackedNameIsValid(s, q);
    assert Hangs(s.nodes, q);
    ModeBits(s.nodes[q]);
  }

  lemma {:induction false} SoundIff(policy: Verifier.Policy, s: Source, paths: seq<Path>)
    requires Valid(s) && Canonical(s, paths) && Fits(s)
    ensures Verifier.Sound(policy, EntriesFor(s, paths)) <==> ConfigKept(policy, s)
  {
    var es := EntriesFor(s, paths);
    CountPacked(s, paths);
    forall i, j | 0 <= i < j < |es| ensures es[i].name != es[j].name {
      CompareAntisymmetric(NameOf(paths[i]), NameOf(paths[j]));
    }
    forall i | 0 <= i < |es|
      ensures Verifier.SoundEntry(policy, es[i]) <==>
                (NameOf(paths[i]) == policy.config ==> ConfigFile(s.nodes[paths[i]])) {
      assert Packed(s, paths[i]);
      EntryIsSound(policy, s, paths[i]);
    }
    if Verifier.Sound(policy, es) {
      forall q | Packed(s, q) && NameOf(q) == policy.config ensures ConfigFile(s.nodes[q]) {
        var i :| 0 <= i < |paths| && paths[i] == q;
        assert Verifier.SoundEntry(policy, es[i]);
      }
    }
  }

  lemma {:induction false} HoldsIff(s: Source, paths: seq<Path>, name: string)
    requires Valid(s) && Canonical(s, paths)
    ensures Verifier.RegularAt(EntriesFor(s, paths), name) <==> Holds(s, name, Regular)
    ensures Verifier.RunnableAt(EntriesFor(s, paths), name) <==> Holds(s, name, Runnable)
  {
    var es := EntriesFor(s, paths);
    forall i | 0 <= i < |paths|
      ensures Packed(s, paths[i]) && es[i].name == NameOf(paths[i])
      ensures IsRegular(es[i].mode) <==> Regular(s.nodes[paths[i]])
      ensures IsRegular(es[i].mode) || IsLink(es[i].mode) <==> Runnable(s.nodes[paths[i]]) {
      assert Packed(s, paths[i]) && Hangs(s.nodes, paths[i]);
      ModeBits(s.nodes[paths[i]]);
    }
    forall q | Packed(s, q) ensures exists i :: 0 <= i < |paths| && paths[i] == q {
      assert q in paths;
    }
  }

  /** The text that the verifier keeps is that of the only entry with the name. */
  lemma {:induction false} ConfigTextIs(policy: Verifier.Policy, es: seq<Entry>)
    ensures Verifier.ConfigText(policy, es).None? <==> forall i :: 0 <= i < |es| ==> es[i].name != policy.config
    ensures Verifier.ConfigText(policy, es).Some? ==>
              exists i :: 0 <= i < |es| && es[i].name == policy.config
                          && es[i].data == Verifier.ConfigText(policy, es).value
  {
    if es != [] {
      var k := |es| - 1;
      ConfigTextIs(policy, es[..k]);
      if es[k].name != policy.config && Verifier.ConfigText(policy, es[..k]).Some? {
        var i :| 0 <= i < k && es[..k][i].name == policy.config
                 && es[..k][i].data == Verifier.ConfigText(policy, es[..k]).value;
        assert es[i] == es[..k][i];
      }
    }
  }

  lemma {:induction false} RuntimeIff(policy: Verifier.Policy, s: Source, paths: seq<Path>,
      runtime: Config.RuntimeConfig)
    requires Valid(s) && Canonical(s, paths) && ConfigKept(policy, s)
    ensures Verifier.RuntimeOf(policy, EntriesFor(s, paths)) == Some(runtime) <==> RunsWith(policy, s, runtime)
  {
    var es := EntriesFor(s, paths);
    ConfigTextIs(policy, es);
    if exists q :: Packed(s, q) && NameOf(q) == policy.config {
      var q :| Packed(s, q) && NameOf(q) == policy.config;
      var k :| 0 <= k < |paths| && paths[k] == q;
      assert es[k].name == policy.config;
      var text := Verifier.ConfigText(policy, es).value;
      var i :| 0 <= i < |es| && es[i].name == policy.config && es[i].data == text;
      RunsWithConfigAt(policy, s, paths[i], runtime);
    } else {
      forall i | 0 <= i < |es| ensures es[i].name != policy.config {
        assert Packed(s, paths[i]);
      }
    }
  }

  lemma {:induction false} RunsWithConfigAt(policy: Verifier.Policy, s: Source, p: Path, runtime: Config.RuntimeConfig)
    requires Valid(s) && ConfigKept(policy, s) && Packed(s, p) && NameOf(p) == policy.config
    ensures RunsWith(policy, s, runtime) <==> Config.ParsedRuntime(DataOf(s.nodes[p])) == Some(runtime)
  {
    forall q | Packed(s, q) && NameOf(q) == policy.config ensures q == p {
      SamePath(s, q, p);
    }
  }

  lemma {:induction false} SamePath(s: Source, p: Path, q: Path)
    requires Valid(s) && Packed(s, p) && Packed(s, q) && NameOf(p) == NameOf(q)
    ensures p == q
  {
    NodesHaveFileNames(s, p);
    NodesHaveFileNames(s, q);
    if p != q {
      NamesDiffer(p, q);
    }
  }

  lemma {:induction false} TrailerIff(s: Source, paths: seq<Path>)
    requires Valid(s) && Canonical(s, paths)
    ensures (exists i :: 0 <= i < |paths| && ItemsFor(s, paths)[i].entry.name == TrailerName) <==>
              Packed(s, [TrailerName])
  {
    assert NameOf([TrailerName]) == TrailerName;
    assert FileNames([TrailerName]);
    forall q | Packed(s, q) && NameOf(q) == TrailerName ensures q == [TrailerName] {
      NodesHaveFileNames(s, q);
      if q != [TrailerName] {
        NamesDiffer(q, [TrailerName]);
      }
    }
    forall i | 0 <= i < |paths| ensures Packed(s, paths[i]) && ItemsFor(s, paths)[i].entry.name == NameOf(paths[i]) {
    }
    if Packed(s, [TrailerName]) {
      var i :| 0 <= i < |paths| && paths[i] == [TrailerName];
    }
  }

  lemma {:induction false} ReportIff(policy: Verifier.Policy, s: Source, paths: seq<Path>)
    requires Valid(s) && Canonical(s, paths) && ConfigKept(policy, s)
    ensures Verifier.Report(policy, EntriesFor(s, paths)).Some? <==> exists runtime :: Starts(policy, s, runtime)
  {
    var es := EntriesFor(s, paths);
    forall name {:trigger Verifier.RegularAt(es, name)} {:trigger Verifier.RunnableAt(es, name)}
      ensures Verifier.RegularAt(es, name) <==> Holds(s, name, Regular)
      ensures Verifier.RunnableAt(es, name) <==> Holds(s, name, Runnable) {
      HoldsIff(s, paths, name);
    }
    forall runtime {:trigger RunsWith(policy, s, runtime)}
      ensures Verifier.RuntimeOf(policy, es) == Some(runtime) <==> RunsWith(policy, s, runtime) {
      RuntimeIff(policy, s, paths, runtime);
    }
    if Verifier.Report(policy, es).Some? {
      var runtime := Verifier.RuntimeOf(policy, es).value;
      assert RunsWith(policy, s, runtime);
      assert Starts(policy, s, runtime);
    }
    if exists runtime :: Starts(policy, s, runtime) {
      var runtime :| Starts(policy, s, runtime);
      assert RunsWith(policy, s, runtime);
    }
  }

  /** A configuration file that is not kept stops every start. */
  lemma {:induction false} StartsNeedsConfig(policy: Verifier.Policy, s: Source, runtime: Config.RuntimeConfig)
    requires Valid(s) && Starts(policy, s, runtime)
    ensures ConfigKept(policy, s)
  {
    forall p | Packed(s, p) && NameOf(p) == policy.config ensures ConfigFile(s.nodes[p]) {
      var q :| Packed(s, q) && NameOf(q) == policy.config && ConfigFile(s.nodes[q]);
      SamePath(s, p, q);
    }
  }

  lemma {:induction false} ParsedIs(s: Source, paths: seq<Path>)
    requires Valid(s) && Canonical(s, paths) && Fits(s)
    ensures Parse(Newc.PrefixOf, ArchiveOf(s, paths))
            == if Packed(s, [TrailerName]) then None else Some(EntriesFor(s, paths))
  {
    ArchivableIff(s, paths);
    SourceIsWritable(s, paths);
    Newc.NewcRoundTrip(ItemsFor(s, paths));
    TrailerIff(s, paths);
    assert Entries(ItemsFor(s, paths)) == EntriesFor(s, paths);
  }

  /** The verifier accepts the archive of a source that fits exactly if the tree can be
      archived. */
  lemma {:induction false} VerdictIff(policy: Verifier.Policy, s: Source, paths: seq<Path>)
    requires Valid(s) && Canonical(s, paths) && Fits(s)
    ensures Verifier.Verified(policy, Newc.PrefixOf, ArchiveOf(s, paths)).Some? <==> CanBeArchived(policy, s)
  {
    var es := EntriesFor(s, paths);
    ParsedIs(s, paths);
    SoundIff(policy, s, paths);
    Verifier.AcceptedIffSound(policy, es);
    if ConfigKept(policy, s) {
      ReportIff(policy, s, paths);
    } else if exists runtime :: Starts(policy, s, runtime) {
      var runtime :| Starts(policy, s, runtime);
      StartsNeedsConfig(policy, s, runtime);
    }
  }

  /** There is an archive that the packer would put in place exactly if the tree can
      be packed. */
  lemma {:induction false} PackableIff(s: Source)
    requires Valid(s)
    ensures (exists paths :: Packable(s, paths)) <==> CanBePacked(Verifier.Standard(true), s)
  {
    var policy := Verifier.Standard(true);
    var paths := CanonicalExists(s);
    ArchivableIff(s, paths);
    if Fits(s) {
      VerdictIff(policy, s, paths);
    }
    if exists paths' :: Packable(s, paths') {
      var paths' :| Packable(s, paths');
      ArchivableIff(s, paths');
      VerdictIff(policy, s, paths');
    }
    assert Packable(s, paths) <==> CanBePacked(policy, s);
  }

  // ----- What the check of the source adds

  /** A name under which something is packed is found by the check of the source. */
  lemma {:induction false} HeldIsFound(s: Source, name: string, kind: SourceNode -> bool)
    requires Valid(s) && Holds(s, name, kind)
    ensures Found(s, name, kind)
  {
    var q :| Packed(s, q) && NameOf(q) == name && kind(s.nodes[q]);
    SplitOfName(s, q);
  }

  lemma {:induction false} SplitOfName(s: Source, q: Path)
    requires Valid(s) && q in s.nodes && q != []
    ensures Split(NameOf(q), '/') == q
  {
    NodesHaveFileNames(s, q);
    forall c | c in q ensures '/' !in c {
      var i :| 0 <= i < |q| && q[i] == c;
      assert FileName(q[i]);
    }
    SplitOfJoin(q, '/');
  }

  /** The configuration that the check reads is not part of the archive, because it is
      on another device: it has to load all the same, and what it asks for has to be
      there. */
  predicate UnpackedConfigIsFine(policy: Verifier.Policy, s: Source) {
    var n := StatusAt(s, policy.config);
    n.Some? ==>
      var runtime := ConfigOf(n.value);
      && runtime.Some?
      && (runtime.value.entryMode == Config.Handoff ==> Found(s, Verifier.BelowRoot(runtime.value.entry), Regular))
  }

  /** What the check of the source asks of a tree that can be archived. */
  ghost predicate SourceIsFine(policy: Verifier.Policy, s: Source) {
    && PathsFit(policy, s) && EtcIsReal(policy, s)
    && (!Packed(s, Split(policy.config, '/')) ==> UnpackedConfigIsFine(policy, s))
  }

  lemma {:induction false} CStringOfText(text: string)
    requires NUL !in text
    ensures Newc.CString(text) == text
  {
  }

  /** A packed configuration is the one that the check loads. */
  lemma {:induction false} PackedConfigLoads(policy: Verifier.Policy, s: Source, runtime: Config.RuntimeConfig)
    requires Valid(s) && PathsFit(policy, s) && EtcIsReal(policy, s) && RunsWith(policy, s, runtime)
    requires Packed(s, Split(policy.config, '/')) && ConfigKept(policy, s)
    ensures LoadedConfig(policy, s) == Some(runtime)
  {
    var p := Split(policy.config, '/');
    JoinOfSplit(policy.config, '/');
    assert NameOf(p) == policy.config;
    RunsWithConfigAt(policy, s, p, runtime);
    CStringOfText(s.nodes[p].data);
  }

  /** For a tree that can be archived, the check of the source asks for a real etc
      directory, for room for the configuration's path, and for a configuration on
      another device to be one that could be started from. */
  lemma {:induction false} SourceCheckAdds(policy: Verifier.Policy, s: Source)
    requires Valid(s) && policy.recovery && CanBeArchived(policy, s)
    ensures SourceVerified(policy, s) <==> SourceIsFine(policy, s)
  {
    var runtime :| Starts(policy, s, runtime);
    HeldIsFound(s, policy.shell, Runnable);
    HeldIsFound(s, policy.progress, Runnable);
    if PathsFit(policy, s) && EtcIsReal(policy, s) {
      if Packed(s, Split(policy.config, '/')) {
        StartsNeedsConfig(policy, s, runtime);
        PackedConfigLoads(policy, s, runtime);
        if runtime.entryMode == Config.Handoff {
          HeldIsFound(s, Verifier.BelowRoot(runtime.entry), Regular);
        }
      }
    }
  }

  /** A tree on one device. */
  predicate OneDevice(s: Source) {
    forall q :: q in s.nodes ==> !s.nodes[q].MountPoint?
  }

  lemma {:induction false} AllIsPacked(s: Source, q: Path)
    requires Valid(s) && OneDevice(s) && q in s.nodes && q != []
    ensures Packed(s, q)
  {
    forall r | [] <= r < q ensures r in s.nodes && s.nodes[r].Folder? {
      AboveNode(s, r, q);
    }
  }

  /** On one device the check of the source asks for no more than that etc is a
      directory, if it is there, and that the configuration's path fits. */
  lemma {:induction false} OneDeviceIff(policy: Verifier.Policy, s: Source)
    requires Valid(s) && Usable(policy) && policy.recovery && OneDevice(s)
    ensures CanBePacked(policy, s) <==>
              && CanBeArchived(policy, s) && PathsFit(policy, s)
              && ([policy.etc] in s.nodes ==> s.nodes[[policy.etc]].Folder?)
  {
    if CanBeArchived(policy, s) {
      SourceCheckAdds(policy, s);
      var p := Split(policy.config, '/');
      if p in s.nodes {
        AllIsPacked(s, p);
      }
    }
  }

  /** A tree whose etc is a link or a file is refused, whatever else is in it. */
  lemma {:induction false} LinkedEtcIsRefused(policy: Verifier.Policy, s: Source)
    requires Valid(s) && [policy.etc] in s.nodes && Runnable(s.nodes[[policy.etc]])
    ensures !CanBePacked(policy, s)
  {
  }
}
