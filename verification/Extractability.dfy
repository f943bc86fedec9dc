/**
  Which accepted archives root can extract when no call fails: a condition on the
  paths of the entries that does not depend on their order.
*/
module Extractability {
  import opened CStrings
  import opened Archive
  import opened FileTree
  import opened Extraction
  import opened ExtractionMeaning
  import opened Tidy
  import Config
  import Newc
  import Verifier

  /** Only directories end in a slash or have another entry at or below their path. */
  predicate Clear(es: seq<Entry>, i: nat)
    requires i < |es|
  {
    !IsDirectory(es[i].mode) ==>
      !RouteOf(es[i].name).slash && forall j :: 0 <= j < |es| && j != i ==> !(PathOf(es[i]) <= PathOf(es[j]))
  }

  /** and every link points somewhere. */
  predicate Extractable(es: seq<Entry>) {
    forall i :: 0 <= i < |es| ==> Clear(es, i) && (IsLink(es[i].mode) ==> es[i].data != "")
  }

  // ----- A clear archive is placed

  /** Directories can be made along a path where nothing else is in the way. */
  lemma {:induction false} DirectoriesFit(env: Env, nodes: Nodes, p: Path)
    requires forall q :: q <= p && q in nodes ==> nodes[q].Directory?
    ensures env.MakeDirectories(nodes, p).Some?
    decreases |p|
  {
    if p != [] {
      forall q | q <= Parent(p) && q in nodes ensures nodes[q].Directory? {
        assert q <= p;
      }
      DirectoriesFit(env, nodes, Parent(p));
      MadeDirectories(env, nodes, Parent(p));
      assert p <= p;
    }
  }

  /** What is already at an entry's path or above it is a directory. */
  lemma {:induction false} OnlyDirectoriesAbove(env: Env, start: Nodes, n: Nodes, es: seq<Entry>, k: nat, q: Path)
    requires Extractable(es) && k < |es| && Empty(start) && Shows(env, start, n, es[..k])
    requires q <= PathOf(es[k]) && q in n
    ensures n[q].Directory?
  {
    if q !in start {
      var i :| 0 <= i < |es[..k]| && AccountedBy(env, es[..k][i], q, n[q]);
      assert Clear(es, i);
    } else {
      assert q == [];
    }
  }

  /** A path that something other than a directory is to get is still free. */
  lemma {:induction false} PathIsFree(env: Env, start: Nodes, n: Nodes, es: seq<Entry>, done: seq<Entry>, k: nat)
    requires Extractable(es) && k < |es| && !IsDirectory(es[k].mode) && Empty(start) && Shows(env, start, n, done)
    requires done <= es && (|done| <= k || IsLink(es[k].mode)) && PathOf(es[k]) != []
    ensures PathOf(es[k]) !in n
  {
    var p := PathOf(es[k]);
    assert Clear(es, k);
    forall i, m | 0 <= i < |done| ensures !AccountedBy(env, done[i], p, m) {
      assert done[i] == es[i];
    }
  }

  lemma {:induction false} NextFits(env: Env, start: Nodes, n: Nodes, es: seq<Entry>, k: nat)
    requires Extractable(es) && k < |es| && SafeEntry(es[k]) && Empty(start) && Shows(env, start, n, es[..k])
    ensures env.PlaceEntry(n, es[k]).Some?
  {
    var r := RouteOf(es[k].name);
    var parent := env.ParentOf(r);
    ValidNameRoute(es[k].name);
    forall q | q <= r.path && q in n ensures n[q].Directory? {
      OnlyDirectoriesAbove(env, start, n, es, k, q);
    }
    DirectoriesFit(env, n, parent);
    MadeDirectories(env, n, parent);
    if !IsDirectory(es[k].mode) {
      assert Clear(es, k);
      PathIsFree(env, start, n, es, es[..k], k);
    }
  }

  lemma {:induction false} ClearStep(env: Env, start: Nodes, es: seq<Entry>, k: nat, init: seq<Entry>)
    requires Extractable(es) && Safe(es) && Empty(start) && k < |es| && init == es[..k]
    requires env.PlaceEntries(start, init).Some?
    ensures env.PlaceEntry(env.PlaceEntries(start, init).value, es[k]).Some?
  {
    SafePrefix(es, k);
    SafeAt(es, k);
    PlacedMeans(env, start, init);
    NextFits(env, start, env.PlaceEntries(start, init).value, es, k);
  }

  lemma {:induction false} ClearIsPlaced(env: Env, start: Nodes, es: seq<Entry>, k: nat)
    requires Extractable(es) && Safe(es) && Empty(start) && k <= |es|
    ensures env.PlaceEntries(start, es[..k]).Some?
  {
    if k > 0 {
      ClearIsPlaced(env, start, es, k - 1);
      assert es[..k][..k - 1] == es[..k - 1];
      ClearStep(env, start, es, k - 1, es[..k - 1]);
    }
  }

  // ----- and linked

  lemma {:induction false} ClearIsLinked(env: Env, start: Nodes, placed: Nodes, es: seq<Entry>, k: nat)
    requires Extractable(es) && Safe(es) && Empty(start) && Shows(env, start, placed, es) && k <= |es|
    ensures env.PlaceLinks(placed, Links(es[..k])).Some?
  {
    if k > 0 {
      var init, e := es[..k - 1], es[k - 1];
      ClearIsLinked(env, start, placed, es, k - 1);
      assert es[..k][..k - 1] == init;
      if IsLink(e.mode) {
        LinkedMeans(env, placed, init);
        NextLinkFits(env, start, placed, env.PlaceLinks(placed, Links(init)).value, es, k - 1);
        LastLink(env, placed, Links(init), Entry(e.mode, 0, 0, e.name, e.data));
      } else {
        assert Links(init) + [] == Links(init);
      }
    }
  }

  lemma {:induction false} NextLinkFits(env: Env, start: Nodes, placed: Nodes, n: Nodes, es: seq<Entry>, k: nat)
    requires Extractable(es) && Safe(es) && k < |es| && IsLink(es[k].mode) && Empty(start)
    requires Shows(env, start, placed, es) && HoldsLinks(placed, n, es[..k])
    ensures PathOf(es[k]) !in n && !RouteOf(es[k].name).slash
  {
    SafeAt(es, k);
    ValidNameRoute(es[k].name);
    assert Clear(es, k);
    PathIsFree(env, start, placed, es, es, k);
    forall i | 0 <= i < k ensures !IsLinkAt(es[..k][i], PathOf(es[k])) {
      assert PathOf(es[k]) <= PathOf(es[k]);
    }
  }

  /** Making links keeps the tree rooted and everything else in its place. */
  lemma {:induction false} LinkedIsRooted(env: Env, nodes: Nodes, links: seq<Entry>)
    requires Rooted(nodes) && All(BasedIn(nodes), links) && env.PlaceLinks(nodes, links).Some?
    ensures Rooted(env.PlaceLinks(nodes, links).value) && Extends(nodes, env.PlaceLinks(nodes, links).value)
  {
    if links != [] {
      var init, e := links[..|links| - 1], links[|links| - 1];
      LinkedIsRooted(env, nodes, init);
      var n := env.PlaceLinks(nodes, init).value;
      assert BasedIn(nodes)(e.name, IsDirectory(e.mode));
      BasedStays(nodes, n, e.name, false);
      RootedAfter(n, RouteOf(e.name).path, Link(e.data));
    }
  }

  // ----- and stamped, by root

  lemma {:induction false} RootEntersAll(env: Env, nodes: Nodes)
    requires env.privileged
    ensures Open(env, nodes)
  {
  }

  lemma {:induction false} RootStampsOne(env: Env, nodes: Nodes, e: Entry)
    requires env.privileged && Rooted(nodes) && Based(nodes, e.name, true)
    ensures env.StampDirectory(nodes, e).Some?
    ensures Rooted(env.StampDirectory(nodes, e).value) && SameShape(nodes, env.StampDirectory(nodes, e).value)
  {
    var p := RouteOf(e.name).path;
    assert Held(nodes, p);
    RootEntersAll(env, nodes);
    WalkInside(env, nodes, Parent(p));
    var n := env.StampDirectory(nodes, e).value;
    RootedAfter(nodes, p, n[p]);
  }

  lemma {:induction false} RootStamps(env: Env, nodes: Nodes, dirs: seq<Entry>)
    requires env.privileged && Rooted(nodes)
    requires forall i :: 0 <= i < |dirs| ==> Based(nodes, dirs[i].name, true)
    ensures env.StampDirectories(nodes, dirs).Some?
    decreases |dirs|
  {
    if dirs != [] {
      var k := |dirs| - 1;
      RootStampsOne(env, nodes, dirs[k]);
      var n := env.StampDirectory(nodes, dirs[k]).value;
      BasedInTests(nodes);
      forall i | 0 <= i < |dirs[..k]| ensures Based(n, dirs[..k][i].name, true) {
        assert Based(nodes, dirs[i].name, true);
        DirectoryStays(nodes, n, dirs[i].name, BasedIn(nodes));
      }
      RootStamps(env, n, dirs[..k]);
    }
  }

  /** The tree behind the first two phases, for any outcome of the third. */
  lemma {:induction false} LinkedTree(env: Env, start: Nodes, es: seq<Entry>)
    requires Empty(start) && Safe(es) && env.PlaceEntries(start, es).Some?
    requires env.PlaceLinks(env.PlaceEntries(start, es).value, Links(es)).Some?
    ensures var placed := env.PlaceEntries(start, es).value;
            var linked := env.PlaceLinks(placed, Links(es)).value;
            && Rooted(linked) && All(BasedIn(linked), Directories(es)) && Extends(placed, linked)
            && Shows(env, start, placed, es) && HoldsLinks(placed, linked, es)
  {
    var placed := env.PlaceEntries(start, es).value;
    EmptyIsRooted(start);
    AllPlaced(env, start, es);
    PlacedMeans(env, start, es);
    DeferredHold(BasedIn(placed), es);
    LinkedIsRooted(env, placed, Links(es));
    LinkedMeans(env, placed, es);
    AllStay(placed, env.PlaceLinks(placed, Links(es)).value, Directories(es));
  }

  lemma {:induction false} ClearIsExtracted(env: Env, start: Nodes, es: seq<Entry>)
    requires env.privileged && Empty(start) && Safe(es) && Extractable(es)
    ensures env.Extracted(start, es).Some?
  {
    ClearIsPlaced(env, start, es, |es|);
    assert es[..|es|] == es;
    var placed := env.PlaceEntries(start, es).value;
    PlacedMeans(env, start, es);
    ClearIsLinked(env, start, placed, es, |es|);
    LinkedTree(env, start, es);
    DirectoriesAreDirectories(es);
    var linked, dirs := env.PlaceLinks(placed, Links(es)).value, Directories(es);
    forall i | 0 <= i < |dirs| ensures Based(linked, dirs[i].name, true) {
      assert BasedIn(linked)(dirs[i].name, IsDirectory(dirs[i].mode));
    }
    RootStamps(env, linked, dirs);
  }

  // ----- An extracted archive is clear

  lemma {:induction false} PlacedHasNoSlash(env: Env, start: Nodes, es: seq<Entry>, i: nat)
    requires i < |es| && IsRegular(es[i].mode) && env.PlaceEntries(start, es).Some?
    ensures !RouteOf(es[i].name).slash
  {
    if env.PlaceEntries(start, es[..i + 1]).None? {
      PrefixHasToBePlaced(env, start, es, i + 1);
    }
    LastHasNoSlash(env, start, es[..i + 1]);
  }

  lemma {:induction false} LastHasNoSlash(env: Env, start: Nodes, es: seq<Entry>)
    requires es != [] && IsRegular(es[|es| - 1].mode) && env.PlaceEntries(start, es).Some?
    ensures !RouteOf(es[|es| - 1].name).slash
  {
    var n := env.PlaceEntries(start, es[..|es| - 1]).value;
    assert env.PlaceEntry(n, es[|es| - 1]).Some?;
  }

  lemma {:induction false} KeptForLater(es: seq<Entry>, i: nat)
    requires i < |es| && IsLink(es[i].mode)
    ensures Entry(es[i].mode, 0, 0, es[i].name, es[i].data) in Links(es)
    decreases |es|
  {
    if i < |es| - 1 {
      KeptForLater(es[..|es| - 1], i);
    }
  }

  lemma {:induction false} LinkedHasNoSlash(env: Env, nodes: Nodes, links: seq<Entry>, e: Entry)
    requires e in links && env.PlaceLinks(nodes, links).Some?
    ensures !RouteOf(e.name).slash && e.data != ""
  {
    var init, last := links[..|links| - 1], links[|links| - 1];
    assert links == init + [last];
    if e in init {
      LinkedHasNoSlash(env, nodes, init, e);
    }
  }

  lemma {:induction false} AboveIsDirectory(nodes: Nodes, p: Path, q: Path)
    requires Rooted(nodes) && q in nodes && p < q
    ensures p in nodes && nodes[p].Directory?
    decreases |q|
  {
    assert Held(nodes, q);
    if p != Parent(q) {
      assert p < Parent(q);
      AboveIsDirectory(nodes, p, Parent(q));
    }
  }

  /** Without a slash at the end a valid name is its path. */
  lemma {:induction false} NameIsPath(name: string)
    requires Verifier.ValidName(name) && !RouteOf(name).slash
    ensures name == Join(Split(name, '/'), '/') && RouteOf(name).path == Split(name, '/')
  {
    JoinOfSplit(name, '/');
    LastPiece(name, Split(name, '/'));
    PlainUpToLast(Split(name, '/'));
    NonEmptyOfNonEmpty(Split(name, '/'));
  }

  lemma {:induction false} LastPiece(s: string, parts: seq<string>)
    requires |parts| > 0 && s == Join(parts, '/') && s != "" && s[|s| - 1] != '/'
    ensures parts[|parts| - 1] != ""
  {
    if |parts| > 1 {
      var init, last := parts[..|parts| - 1], parts[|parts| - 1];
      assert parts == init + [last];
      JoinSnoc(init, last, '/');
      EndsWith(Join(init, '/'), '/', last);
    }
  }

  lemma {:induction false} EndsWith(a: string, c: char, b: string)
    ensures b == "" ==> (a + [c] + b)[|a + [c] + b| - 1] == c
  {
  }

  lemma {:induction false} PlainUpToLast(parts: seq<string>)
    requires |parts| > 0 && Config.PlainPath(parts) && parts[|parts| - 1] != ""
    ensures forall p :: p in parts ==> p != ""
  {
    if |parts| > 1 {
      PlainUpToLast(parts[1..]);
      assert parts == [parts[0]] + parts[1..];
    }
  }

  /** What an entry that is no directory has in the linked tree. */
  lemma {:induction false} LeafIsThere(env: Env, start: Nodes, placed: Nodes, linked: Nodes, es: seq<Entry>, i: nat)
    requires i < |es| && Safe(es) && Shows(env, start, placed, es)
    requires HoldsLinks(placed, linked, es) && Extends(placed, linked)
    ensures PathOf(es[i]) in linked && (linked[PathOf(es[i])].Directory? <==> IsDirectory(es[i].mode))
  {
    SafeAt(es, i);
    assert Shown(env, placed, es[i]);
    if IsLink(es[i].mode) {
      assert HoldsLink(placed, linked, PathOf(es[i]), es[i].data);
    }
  }

  lemma {:induction false} ExtractedIsClear(env: Env, start: Nodes, es: seq<Entry>, i: nat)
    requires Empty(start) && Safe(es) && Verifier.DistinctNames(es) && env.Extracted(start, es).Some? && i < |es|
    ensures Clear(es, i)
  {
    if !IsDirectory(es[i].mode) {
      var placed := env.PlaceEntries(start, es).value;
      var linked := env.PlaceLinks(placed, Links(es)).value;
      LinkedTree(env, start, es);
      HasNoSlash(env, start, es, i);
      forall j | 0 <= j < |es| && j != i ensures !(PathOf(es[i]) <= PathOf(es[j])) {
        LeafIsThere(env, start, placed, linked, es, i);
        LeafIsThere(env, start, placed, linked, es, j);
        if PathOf(es[i]) < PathOf(es[j]) {
          AboveIsDirectory(linked, PathOf(es[i]), PathOf(es[j]));
        } else if PathOf(es[i]) == PathOf(es[j]) {
          HasNoSlash(env, start, es, j);
          SafeAt(es, i);
          SafeAt(es, j);
          NameIsPath(es[i].name);
          NameIsPath(es[j].name);
        }
      }
    }
  }

  lemma {:induction false} LinkHasTarget(env: Env, start: Nodes, es: seq<Entry>, i: nat)
    requires i < |es| && IsLink(es[i].mode) && env.Extracted(start, es).Some?
    ensures es[i].data != ""
  {
    KeptForLater(es, i);
    LinkedHasNoSlash(env, env.PlaceEntries(start, es).value, Links(es),
                     Entry(es[i].mode, 0, 0, es[i].name, es[i].data));
  }

  lemma {:induction false} HasNoSlash(env: Env, start: Nodes, es: seq<Entry>, i: nat)
    requires i < |es| && Safe(es) && !IsDirectory(es[i].mode) && env.Extracted(start, es).Some?
    ensures !RouteOf(es[i].name).slash
  {
    SafeAt(es, i);
    if IsRegular(es[i].mode) {
      PlacedHasNoSlash(env, start, es, i);
    } else {
      KeptForLater(es, i);
      LinkedHasNoSlash(env, env.PlaceEntries(start, es).value, Links(es),
                       Entry(es[i].mode, 0, 0, es[i].name, es[i].data));
    }
  }

  /** Root can extract an archive into an empty directory, when no call fails, exactly
      if only directories end in a slash or have other entries at or below them, and
      every link points somewhere. */
  lemma {:induction false} ExtractedIff(env: Env, start: Nodes, es: seq<Entry>)
    requires env.privileged && Empty(start) && Safe(es) && Verifier.DistinctNames(es)
    ensures env.Extracted(start, es).Some? <==> Extractable(es)
  {
    if Extractable(es) {
      ClearIsExtracted(env, start, es);
    }
    if env.Extracted(start, es).Some? {
      forall i | 0 <= i < |es| ensures Clear(es, i) && (IsLink(es[i].mode) ==> es[i].data != "") {
        ExtractedIsClear(env, start, es, i);
        if IsLink(es[i].mode) {
          LinkHasTarget(env, start, es, i);
        }
      }
    }
  }

  /** The same for bp_cpio_extract_internal: which archives its verifier accepts and
      root then extracts. */
  lemma {:induction false} AcceptedExtracts(policy: Verifier.Policy, env: Env, start: Nodes, archive: string)
    requires env.privileged && Empty(start) && Verifier.Verified(policy, Newc.PrefixOf, archive).Some?
    ensures ExtractedFrom(policy, env, start, archive).Some? <==> Extractable(Parse(Newc.PrefixOf, archive).value)
  {
    var es := Parse(Newc.PrefixOf, archive).value;
    Verifier.AcceptedAreDistinct(policy, es);
    AcceptedAreSafe(policy, es);
    ExtractedIff(env, start, es);
  }

  /** A link with an empty target can never be made, */
  lemma {:induction false} EmptyTargetNeverExtracts(env: Env, start: Nodes, es: seq<Entry>, i: nat)
    requires i < |es| && IsLink(es[i].mode) && es[i].data == ""
    ensures env.Extracted(start, es).None?
  {
    if env.Extracted(start, es).Some? {
      LinkHasTarget(env, start, es, i);
    }
  }

  /** but the verifier lets it by. */
  lemma {:induction false} EmptyTargetIsSound(policy: Verifier.Policy, e: Entry)
    requires Verifier.ValidName(e.name) && e.name != policy.config && IsLink(e.mode) && e.data == ""
    ensures Verifier.Sound(policy, [e])
  {
    var es := [e];
    assert Verifier.SoundEntry(policy, es[0]);
  }
}
