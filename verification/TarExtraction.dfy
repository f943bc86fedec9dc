/**
  The extraction loop of src/tar.c computes all names again. How its results agree
  with the verifier's list, and when every hard link finds its file.
*/
module TarExtraction {
  import opened CStrings
  import opened TarNames
  import opened Tar
  import Archive
  import Sorting

  /** What the loop does with a header. */
  datatype Step = Fails | Skips | Extracts(path: string, hardlink: Option<string>)

  function Recompute(h: Header, prefix: string): Step {
    if h.path.None? then Fails
    else
      match Normalize(h.path.value)
      case None => Fails
      case Some(Root) => Skips
      case Some(Below(p)) => RecomputeBelow(h, p, prefix)
  }

  function RecomputeBelow(h: Header, p: string, prefix: string): Step {
    match Strip(p, prefix)
    case None => Fails
    case Some(Root) => Skips
    case Some(Below(path)) =>
      match TargetOf(h.hardlink) {
        case None => Fails
        case Some(None) => Extracts(path, None)
        case Some(Some(t)) =>
          match Strip(t, prefix) {
            case Some(Below(target)) => Extracts(path, Some(target))
            case _ => Fails
          }
      }
  }

  /** One turn of the loop in bp_tar_gzip_extract_internal. */
  method RecomputeName(h: Header, prefix: string) returns (r: Step)
    ensures r == Recompute(h, prefix)
  {
    if h.path.None? {
      return Fails;
    }
    var name := NormalizePath(h.path.value);
    if name.None? {
      return Fails;
    }
    if name.value.Root? {
      return Skips;
    }
    var below := Strip(name.value.path, prefix);
    if below.None? {
      return Fails;
    }
    if below.value.Root? {
      return Skips;
    }
    if h.hardlink.None? {
      return Extracts(below.value.path, None);
    }
    var target := NormalizePath(h.hardlink.value);
    if target.None? || target.value.Root? {
      return Fails;
    }
    var link := Strip(target.value.path, prefix);
    if link.None? || link.value.Root? {
      return Fails;
    }
    return Extracts(below.value.path, Some(link.value.path));
  }

  // ----- Headers and items

  predicate NamesRoot(h: Header) { h.path.Some? && Normalize(h.path.value) == Some(Root) }

  /** The headers that do not name the archive's root. */
  function NonRoot(hs: seq<Header>): seq<Header> {
    if hs == [] then []
    else NonRoot(hs[..|hs| - 1]) + if NamesRoot(hs[|hs| - 1]) then [] else [hs[|hs| - 1]]
  }

  /** Every listed item is what its header says, and its order is its position. */
  lemma {:induction false} ListingMeans(hs: seq<Header>)
    requires Listing(hs).Some?
    ensures var items := Listing(hs).value;
            |items| == |NonRoot(hs)| && forall i :: 0 <= i < |items| ==> See(NonRoot(hs)[i], i) == Listed(items[i])
  {
    if hs != [] {
      ListingMeans(hs[..|hs| - 1]);
      var last := hs[|hs| - 1];
      assert NamesRoot(last) <==> See(last, |Listing(hs[..|hs| - 1]).value|) == Skipped;
    }
  }

  /** What the loop does with the header of an item. */
  lemma {:induction false} ItemRecomputed(h: Header, item: Item, final: Item, prefix: string, i: nat)
    requires See(h, i) == Listed(item) && Stripped(item, prefix) == Some(final)
    ensures item.order == final.order == i && item.mode == final.mode
    ensures Recompute(h, prefix)
            == if prefix != "" && item.path == prefix then Skips else Extracts(final.path, final.hardlink)
  {
    var p := Normalize(h.path.value).value.path;
    assert item.path == p && Some(item.hardlink) == TargetOf(h.hardlink);
    assert Recompute(h, prefix) == RecomputeBelow(h, p, prefix);
  }

  // ----- Agreement

  /** No other header normalises to the top directory that is taken out. */
  ghost predicate TopOccursOnce(items: seq<Item>, k: nat) {
    forall i :: 0 <= i < |items| && k < |items| && i != k ==> items[i].path != items[k].path
  }

  /** The loop fails on no accepted header. It skips the headers of the top directory;
      for any other it finds exactly the path and the target in the verifier's list. */
  lemma {:induction false} NamesAgree(hs: seq<Header>, k: nat, stripped: seq<Item>, i: nat)
    requires Accepted(hs, k, stripped) && i < |Listing(hs).value|
    ensures |NonRoot(hs)| == |Listing(hs).value| == |stripped|
    ensures var items := Listing(hs).value;
            Recompute(NonRoot(hs)[i], PrefixOf(items, k))
            == if k < |items| && items[i].path == items[k].path then Skips
               else Extracts(stripped[i].path, stripped[i].hardlink)
    ensures stripped[i].order == i
  {
    var items := Listing(hs).value;
    ListingMeans(hs);
    assert Stripped(items[i], PrefixOf(items, k)) == Some(stripped[i]);
    ItemRecomputed(NonRoot(hs)[i], items[i], stripped[i], PrefixOf(items, k), i);
    if k < |items| {
      PathsAreNotEmpty(NonRoot(hs)[k], items[k], k);
    }
  }

  lemma {:induction false} PathsAreNotEmpty(h: Header, item: Item, i: nat)
    requires See(h, i) == Listed(item)
    ensures item.path != ""
  {
  }

  /** The paths the loop extracts. */
  ghost function ExtractedPaths(hs: seq<Header>, prefix: string): set<string> {
    set h | h in NonRoot(hs) && Recompute(h, prefix).Extracts? :: Recompute(h, prefix).path
  }

  ghost function ListedPaths(items: seq<Item>): set<string> { set item | item in items :: item.path }

  lemma {:induction false} WithoutContains(items: seq<Item>, k: nat, i: nat)
    requires i < |items| && i != k
    ensures items[i] in Without(items, k)
  {
    var w := Without(items, k);
    assert w[if i < k || k >= |items| then i else i - 1] == items[i];
  }

  lemma {:induction false} WithoutComesFrom(items: seq<Item>, k: nat, x: Item) returns (i: nat)
    requires x in Without(items, k)
    ensures i < |items| && i != k && items[i] == x
  {
    var w := Without(items, k);
    var j :| 0 <= j < |w| && w[j] == x;
    i := if j < k then j else j + 1;
    if k >= |items| {
      i := j;
    }
  }

  /** A path the loop extracts is in the list. */
  lemma {:induction false} ExtractedIsListed(hs: seq<Header>, k: nat, stripped: seq<Item>, p: string)
    requires Accepted(hs, k, stripped) && p in ExtractedPaths(hs, PrefixOf(Listing(hs).value, k))
    ensures exists i :: 0 <= i < |stripped| && i != k && stripped[i].path == p
                        && (k < |stripped| ==> Listing(hs).value[i].path != Listing(hs).value[k].path)
  {
    var items := Listing(hs).value;
    var prefix := PrefixOf(items, k);
    ListingMeans(hs);
    var h :| h in NonRoot(hs) && Recompute(h, prefix).Extracts? && Recompute(h, prefix).path == p;
    var i :| 0 <= i < |NonRoot(hs)| && NonRoot(hs)[i] == h;
    NamesAgree(hs, k, stripped, i);
  }

  /** A listed path is extracted, when no header but one is skipped. */
  lemma {:induction false} ListedIsExtracted(hs: seq<Header>, k: nat, stripped: seq<Item>, p: string)
    requires Accepted(hs, k, stripped) && TopOccursOnce(Listing(hs).value, k) && p in ListedPaths(Without(stripped, k))
    ensures p in ExtractedPaths(hs, PrefixOf(Listing(hs).value, k))
  {
    var x :| x in Without(stripped, k) && x.path == p;
    var i := WithoutComesFrom(stripped, k, x);
    NamesAgree(hs, k, stripped, i);
    assert NonRoot(hs)[i] in NonRoot(hs);
  }

  /** The extracted paths and the listed ones are the same exactly when the top
      directory's header occurs once. */
  lemma {:induction false} PathSetsAgree(hs: seq<Header>, k: nat, stripped: seq<Item>)
    requires Accepted(hs, k, stripped)
    ensures ExtractedPaths(hs, PrefixOf(Listing(hs).value, k)) == ListedPaths(Without(stripped, k))
            <==> TopOccursOnce(Listing(hs).value, k)
  {
    var items := Listing(hs).value;
    var extracted, listed := ExtractedPaths(hs, PrefixOf(items, k)), ListedPaths(Without(stripped, k));
    ListingMeans(hs);
    if TopOccursOnce(items, k) {
      forall p ensures p in extracted <==> p in listed {
        if p in extracted {
          ExtractedIsListed(hs, k, stripped, p);
          var i :| 0 <= i < |stripped| && i != k && stripped[i].path == p;
          WithoutContains(stripped, k, i);
        }
        if p in listed {
          ListedIsExtracted(hs, k, stripped, p);
        }
      }
    } else {
      var i :| 0 <= i < |items| && k < |items| && i != k && items[i].path == items[k].path;
      RepeatIsOnlyListed(hs, k, stripped, i);
    }
  }

  lemma {:induction false} RepeatIsOnlyListed(hs: seq<Header>, k: nat, stripped: seq<Item>, i: nat)
    requires Accepted(hs, k, stripped) && i < |Listing(hs).value| && k < |Listing(hs).value| && i != k
    requires Listing(hs).value[i].path == Listing(hs).value[k].path
    ensures |stripped| == |Listing(hs).value|
    ensures stripped[i].path in ListedPaths(Without(stripped, k))
    ensures stripped[i].path !in ExtractedPaths(hs, PrefixOf(Listing(hs).value, k))
  {
    WithoutContains(stripped, k, i);
    if stripped[i].path in ExtractedPaths(hs, PrefixOf(Listing(hs).value, k)) {
      ExtractedIsListed(hs, k, stripped, stripped[i].path);
      var j :| 0 <= j < |stripped| && j != k && stripped[j].path == stripped[i].path
               && Listing(hs).value[j].path != Listing(hs).value[k].path;
      WithoutContains(stripped, k, j);
      OnlyOneAtPath(Without(stripped, k), stripped[i], stripped[j]);
      NamesAgree(hs, k, stripped, i);
      NamesAgree(hs, k, stripped, j);
    }
  }

  // ----- Hard links

  /** Before a link is extracted there was a header with its target's name, of a
      regular file that is not a link itself. The loop has extracted it as that,
      exactly unless it is one more header for the top directory's own name. */
  lemma {:induction false} LinkFindsFile(hs: seq<Header>, k: nat, stripped: seq<Item>, i: nat) returns (j: nat)
    requires Accepted(hs, k, stripped) && i < |stripped| && i != k && stripped[i].hardlink.Some?
    ensures |NonRoot(hs)| == |Listing(hs).value| == |stripped|
    ensures j < i && j != k && Resolves(stripped[j], stripped[i])
    ensures Recompute(NonRoot(hs)[j], PrefixOf(Listing(hs).value, k)) == Extracts(stripped[i].hardlink.value, None)
            <==> !(k < |stripped| && Listing(hs).value[j].path == Listing(hs).value[k].path)
  {
    var items := Listing(hs).value;
    WithoutContains(stripped, k, i);
    var t :| t in Without(stripped, k) && Resolves(t, stripped[i]);
    j := WithoutComesFrom(stripped, k, t);
    NamesAgree(hs, k, stripped, i);
    NamesAgree(hs, k, stripped, j);
  }

  /** With a single header for the top directory every link finds its file extracted. */
  lemma {:induction false} LinksAreExtracted(hs: seq<Header>, k: nat, stripped: seq<Item>, i: nat)
    requires Accepted(hs, k, stripped) && TopOccursOnce(Listing(hs).value, k)
    requires i < |stripped| && i != k && stripped[i].hardlink.Some?
    ensures exists j :: 0 <= j < i && j < |NonRoot(hs)| && Archive.IsRegular(stripped[j].mode)
              && Recompute(NonRoot(hs)[j], PrefixOf(Listing(hs).value, k)) == Extracts(stripped[i].hardlink.value, None)
  {
    var j := LinkFindsFile(hs, k, stripped, i);
  }

  // ----- The loop

  predicate NoneFails(hs: seq<Header>, prefix: string) {
    forall i :: 0 <= i < |hs| ==> Recompute(hs[i], prefix) != Fails
  }

  /** The names that the loop passes on, in order. */
  function Names(hs: seq<Header>, prefix: string): seq<Step> {
    if hs == [] then []
    else
      var step := Recompute(hs[|hs| - 1], prefix);
      Names(hs[..|hs| - 1], prefix) + if step.Extracts? then [step] else []
  }

  method ExtractNames(hs: seq<Header>, prefix: string) returns (ok: bool, names: seq<Step>)
    ensures ok <==> NoneFails(hs, prefix)
    ensures ok ==> names == Names(hs, prefix)
  {
    names := [];
    for i := 0 to |hs|
      invariant NoneFails(hs[..i], prefix) && names == Names(hs[..i], prefix)
    {
      assert hs[..i + 1][..i] == hs[..i];
      var step := RecomputeName(hs[i], prefix);
      if step.Fails? {
        return false, [];
      }
      if step.Extracts? {
        names := names + [step];
      }
    }
    assert hs[..|hs|] == hs;
    return true, names;
  }

  lemma {:induction false} HeaderIsListed(hs: seq<Header>, h: Header)
    requires h in hs && !NamesRoot(h)
    ensures h in NonRoot(hs)
  {
    if h != hs[|hs| - 1] {
      assert hs == hs[..|hs| - 1] + [hs[|hs| - 1]];
      HeaderIsListed(hs[..|hs| - 1], h);
    }
  }

  /** The checks that the loop makes again never fail behind the verifier. */
  lemma {:induction false} AcceptedDoesNotFail(hs: seq<Header>, k: nat, stripped: seq<Item>)
    requires Accepted(hs, k, stripped)
    ensures NoneFails(hs, PrefixOf(Listing(hs).value, k))
  {
    ListingMeans(hs);
    forall n | 0 <= n < |hs| ensures Recompute(hs[n], PrefixOf(Listing(hs).value, k)) != Fails {
      if !NamesRoot(hs[n]) {
        HeaderIsListed(hs, hs[n]);
        var i :| 0 <= i < |NonRoot(hs)| && NonRoot(hs)[i] == hs[n];
        NamesAgree(hs, k, stripped, i);
      }
    }
  }

  // ----- A repeated top directory

  lemma {:induction false} WordIsPath(w: string)
    requires IsWord(w)
    ensures IsPath(w) && Normalize(w) == Some(Below(w))
  {
    AllPlainStep(w, |w|);
    assert w[..|w|] == w;
    assert w[0] in w;
    NormalizeAgain(w);
  }

  lemma {:induction false} TwoWordsArePath(a: string, b: string)
    requires IsWord(a) && IsWord(b)
    ensures IsPath(a + "/" + b) && Normalize(a + "/" + b) == Some(Below(a + "/" + b))
    ensures Strip(a + "/" + b, a) == Some(Below(b))
  {
    var s := a + "/" + b;
    assert s[..|a|] == a && s[|a| + 1..] == b && s[0] == a[0];
    AllPlainStep(s, |a|);
    WordIsPath(b);
    WordIsPath(a);
    assert a[0] in a;
    NormalizeAgain(s);
  }

  const DirectoryMode: nat := 0x41ed
  const FileMode: nat := 0x81a4

  /** A directory, a file of the same name, and a link to a file below the directory
      that is not there. */
  function RepeatedTop(top: string, name: string): seq<Header> {
    [Header(Some(top), None, None, DirectoryMode, 0), Header(Some(top), None, None, FileMode, 0),
     LinkHeader(top, name)]
  }

  function RepeatedItems(top: string, name: string): seq<Item> {
    [Item(top, None, DirectoryMode, 0), Item(top, None, FileMode, 1),
     Item(top + "/" + name, Some(top + "/" + top), FileMode, 2)]
  }

  function RepeatedStripped(top: string, name: string): seq<Item> {
    [Item(top, None, DirectoryMode, 0), Item(top, None, FileMode, 1), Item(name, Some(top), FileMode, 2)]
  }

  /** A word that can be a component of a path. */
  predicate IsWord(w: string) { '/' !in w && w != "" && w != "." && w != ".." && |w| < 100 }

  lemma {:induction false} ListingSnoc(hs: seq<Header>, h: Header, items: seq<Item>, item: Item)
    requires Listing(hs) == Some(items) && See(h, |items|) == Listed(item)
    ensures Listing(hs + [h]) == Some(items + [item])
  {
    assert (hs + [h])[..|hs|] == hs;
  }

  lemma {:induction false} TopSeen(top: string, mode: nat, order: nat)
    requires IsWord(top) && (mode == DirectoryMode || mode == FileMode) && order < 2
    ensures See(Header(Some(top), None, None, mode, 0), order) == Listed(Item(top, None, mode, order))
    ensures Recompute(Header(Some(top), None, None, mode, 0), top) == Skips
  {
    WordIsPath(top);
  }

  /** The header of the link in question. */
  function LinkHeader(top: string, name: string): Header {
    Header(Some(top + "/" + name), Some(top + "/" + top), None, FileMode, 0)
  }

  lemma {:induction false} SeeListed(h: Header, order: nat, p: string, t: string)
    requires h.path.Some? && Normalize(h.path.value) == Some(Below(p))
    requires h.hardlink.Some? && Normalize(h.hardlink.value) == Some(Below(t))
    requires h.mode == FileMode && h.size == 0 && order < EntryLimit
    ensures See(h, order) == Listed(Item(p, Some(t), FileMode, order))
  {
  }

  lemma {:induction false} LinkSeen(top: string, name: string)
    requires IsWord(top) && IsWord(name)
    ensures See(LinkHeader(top, name), 2) == Listed(Item(top + "/" + name, Some(top + "/" + top), FileMode, 2))
  {
    TwoWordsArePath(top, top);
    TwoWordsArePath(top, name);
    SeeListed(LinkHeader(top, name), 2, top + "/" + name, top + "/" + top);
  }

  lemma {:induction false} LinkStep(top: string, name: string)
    requires IsWord(top) && IsWord(name)
    ensures Recompute(LinkHeader(top, name), top) == Extracts(name, Some(top))
  {
    TwoWordsArePath(top, top);
    TwoWordsArePath(top, name);
  }

  lemma {:induction false} ThreeListed(h: Header, h': Header, h'': Header, i: Item, i': Item, i'': Item)
    requires See(h, 0) == Listed(i) && See(h', 1) == Listed(i') && See(h'', 2) == Listed(i'')
    ensures Listing([h, h', h'']) == Some([i, i', i''])
  {
    assert [] + [h] == [h] && [h] + [h'] == [h, h'] && [h, h'] + [h''] == [h, h', h''];
    assert [] + [i] == [i] && [i] + [i'] == [i, i'] && [i, i'] + [i''] == [i, i', i''];
    ListingSnoc([], h, [], i);
    ListingSnoc([h], h', [i], i');
    ListingSnoc([h, h'], h'', [i, i'], i'');
  }

  lemma {:induction false} RepeatedTopListing(top: string, name: string)
    requires IsWord(top) && IsWord(name)
    ensures Listing(RepeatedTop(top, name)) == Some(RepeatedItems(top, name))
  {
    var hs, items := RepeatedTop(top, name), RepeatedItems(top, name);
    TopSeen(top, DirectoryMode, 0);
    TopSeen(top, FileMode, 1);
    LinkSeen(top, name);
    ThreeListed(hs[0], hs[1], hs[2], items[0], items[1], items[2]);
  }

  lemma {:induction false} LinkStripped(top: string, name: string, mode: nat, order: nat)
    requires IsWord(top) && IsWord(name)
    ensures Stripped(Item(top + "/" + name, Some(top + "/" + top), mode, order), top)
            == Some(Item(name, Some(top), mode, order))
  {
    TwoWordsArePath(top, top);
    TwoWordsArePath(top, name);
  }

  lemma {:induction false} RepeatedStrips(top: string, name: string)
    requires IsWord(top) && IsWord(name)
    ensures AllStripped(RepeatedItems(top, name), RepeatedStripped(top, name), top)
  {
    var items, stripped := RepeatedItems(top, name), RepeatedStripped(top, name);
    LinkStripped(top, name, FileMode, 2);
  }

  lemma {:induction false} RepeatedHolds(top: string, name: string)
    requires IsWord(top)
    ensures Selects(RepeatedItems(top, name), 0)
  {
    var items := RepeatedItems(top, name);
    assert Within(items[0].path, top) && Within(items[1].path, top) && Within(items[2].path, top);
    assert HoldsAll(items, 0);
  }

  lemma {:induction false} RepeatedLeft(top: string, name: string)
    requires top != name
    ensures var left := Without(RepeatedStripped(top, name), 0);
            Sorting.DistinctKeys(left, PathKey()) && LinksResolve(left)
  {
    var stripped := RepeatedStripped(top, name);
    var left := Without(stripped, 0);
    assert left == [stripped[1], stripped[2]];
    assert Resolves(left[0], left[1]) && left[0] in left;
  }

  /** Such an archive is accepted, and the loop extracts nothing under the link's
      target: acceptance alone does not make every link find its file. */
  lemma {:induction false} RepeatedTopCounterexample(top: string, name: string)
    requires IsWord(top) && IsWord(name) && top != name
    ensures var hs := RepeatedTop(top, name);
            && Accepted(hs, 0, RepeatedStripped(top, name))
            && RepeatedStripped(top, name)[2].hardlink == Some(top)
            && forall i :: 0 <= i < |hs| ==> Recompute(hs[i], top) != Extracts(top, None)
  {
    RepeatedTopListing(top, name);
    RepeatedStrips(top, name);
    RepeatedHolds(top, name);
    RepeatedLeft(top, name);
    TopSeen(top, DirectoryMode, 0);
    TopSeen(top, FileMode, 1);
    LinkStep(top, name);
  }
}
