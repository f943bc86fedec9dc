/**
  The tar verifier's list and the tar extractor's loop in src/tar.c, over the
  headers that the archive library reports: the list is cut free of a single top
  directory in place, sorted and searched; the loop computes every name again.
*/
module Tar {
  import opened CStrings
  import opened TarNames
  import Archive
  import Sorting

  const EntryLimit: nat := 1_000_000

  datatype Header = Header(path: Option<string>, hardlink: Option<string>, symlink: Option<string>, mode: nat,
                           size: int)

  datatype Item = Item(path: string, hardlink: Option<string>, mode: nat, order: nat)

  // ----- Collecting the list

  /** A hard link without a file type counts as a regular file. */
  function StoredMode(h: Header): nat {
    if h.hardlink.Some? && h.mode / 0x1000 % 16 == 0 then h.mode + 0x8000 else h.mode
  }

  predicate Supported(h: Header) {
    && Archive.AllowedType(StoredMode(h))
    && (h.hardlink.Some? ==> Archive.IsRegular(StoredMode(h)) && h.size <= 0)
    && (h.hardlink.None? && Archive.IsRegular(h.mode) ==> h.size >= 0)
    && (Archive.IsDirectory(h.mode) ==> h.size == 0)
    && (Archive.IsLink(h.mode) ==> h.symlink.Some? && h.symlink.value != "")
  }

  /** What the verifier makes of a header: a refusal, nothing for the archive's
      root, or an item. */
  datatype Seen = Refused | Skipped | Listed(item: Item)

  /** A target has to be below the archive's root; None is a refusal. */
  function TargetOf(hardlink: Option<string>): Option<Option<string>> {
    match hardlink
    case None => Some(None)
    case Some(l) =>
      match Normalize(l) {
        case Some(Below(t)) => Some(Some(t))
        case _ => None
      }
  }

  function See(h: Header, order: nat): Seen {
    if h.path.None? then Refused
    else
      match Normalize(h.path.value)
      case None => Refused
      case Some(Root) => Skipped
      case Some(Below(p)) =>
        var target := TargetOf(h.hardlink);
        if target.None? || !Supported(h) || order >= EntryLimit then Refused
        else Listed(Item(p, target.value, StoredMode(h), order))
  }

  /** The list in archive order, or None for a refusal. */
  function Listing(hs: seq<Header>): Option<seq<Item>> {
    if hs == [] then Some([])
    else
      match Listing(hs[..|hs| - 1])
      case None => None
      case Some(items) =>
        match See(hs[|hs| - 1], |items|) {
          case Refused => None
          case Skipped => Some(items)
          case Listed(item) => Some(items + [item])
        }
  }

  lemma {:induction false} RefusalStays(hs: seq<Header>, k: nat)
    requires k <= |hs| && Listing(hs[..k]).None?
    ensures Listing(hs).None?
    decreases |hs|
  {
    if k < |hs| {
      assert hs[..|hs| - 1][..k] == hs[..k];
      RefusalStays(hs[..|hs| - 1], k);
    } else {
      assert hs[..k] == hs;
    }
  }

  method SeeHeader(h: Header, order: nat) returns (r: Seen)
    ensures r == See(h, order)
  {
    if h.path.None? {
      return Refused;
    }
    var name := NormalizePath(h.path.value);
    if name.None? {
      return Refused;
    }
    if name.value.Root? {
      return Skipped;
    }
    var target := None;
    var stored := h.mode;
    if h.hardlink.Some? {
      var link := NormalizePath(h.hardlink.value);
      if link.None? || link.value.Root? {
        return Refused;
      }
      target := Some(link.value.path);
      if h.mode / 0x1000 % 16 == 0 {
        stored := h.mode + 0x8000;
      }
    }
    if || !Archive.AllowedType(stored)
       || (h.hardlink.Some? && (!Archive.IsRegular(stored) || h.size > 0))
       || (h.hardlink.None? && Archive.IsRegular(h.mode) && h.size < 0)
       || (Archive.IsDirectory(h.mode) && h.size != 0)
       || (Archive.IsLink(h.mode) && (h.symlink.None? || h.symlink.value == ""))
    {
      return Refused;
    }
    if order >= EntryLimit {
      return Refused;
    }
    return Listed(Item(name.value.path, target, stored, order));
  }

  /** The types that may be listed: hard links with a regular type or none and
      without data, files of any size, empty directories, and links to something. */
  predicate Listable(h: Header) {
    var fileType := h.mode / 0x1000 % 16;
    if h.hardlink.Some? then (fileType == 8 || fileType == 0) && h.size <= 0
    else if fileType == 8 then h.size >= 0
    else if fileType == 4 then h.size == 0
    else fileType == 10 && h.symlink.Some? && h.symlink.value != ""
  }

  lemma {:induction false} ListableIff(h: Header)
    ensures Supported(h) <==> Listable(h)
    ensures Listable(h) ==> StoredMode(h) % 0x1000 == h.mode % 0x1000 && Archive.AllowedType(StoredMode(h))
  {
  }

  /** The target is a path, and the link's text is that path up to leading "./" and
      trailing slashes. */
  ghost predicate Targets(hardlink: Option<string>, target: Option<string>) {
    match hardlink
    case None => target == None
    case Some(l) => target.Some? && IsPath(target.value) && Wraps(l, target.value)
  }

  lemma {:induction false} TargetIff(hardlink: Option<string>, target: Option<string>)
    ensures TargetOf(hardlink) == Some(target) <==> Targets(hardlink, target)
  {
    if hardlink.Some? && target.Some? {
      NormalizesTo(hardlink.value, target.value);
    }
  }

  /** What is listed, and as what: a header with names that are those paths up to
      leading "./" and trailing slashes, of a type that may be listed. */
  lemma {:induction false} ListedIff(h: Header, order: nat, item: Item)
    ensures See(h, order) == Listed(item)
            <==> && h.path.Some? && IsPath(item.path) && Wraps(h.path.value, item.path)
                 && Targets(h.hardlink, item.hardlink) && Listable(h) && item.order == order < 1_000_000
                 && item.mode == if h.mode / 0x1000 % 16 == 0 then h.mode + 0x8000 else h.mode
  {
    ListableIff(h);
    if Listable(h) {
      StoredIff(h);
    }
    SeeIff(h, order, item);
    if h.path.Some? {
      NormalizesTo(h.path.value, item.path);
    }
    TargetIff(h.hardlink, item.hardlink);
  }

  lemma {:induction false} StoredIff(h: Header)
    requires Listable(h)
    ensures StoredMode(h) == if h.mode / 0x1000 % 16 == 0 then h.mode + 0x8000 else h.mode
  {
  }

  lemma {:induction false} SeeIff(h: Header, order: nat, item: Item)
    ensures See(h, order) == Listed(item)
            <==> && h.path.Some? && Normalize(h.path.value) == Some(Below(item.path))
                 && TargetOf(h.hardlink) == Some(item.hardlink) && Supported(h) && order < EntryLimit
                 && item.mode == StoredMode(h) && item.order == order
  {
  }

  /** Only the archive's root is passed over. */
  lemma {:induction false} SkippedIff(h: Header, order: nat)
    ensures See(h, order) == Skipped
            <==> h.path.Some? && (Wraps(h.path.value, "") || Wraps(h.path.value, "."))
  {
    if h.path.Some? {
      NormalizesToRoot(h.path.value);
    }
  }

  /** A listed item has a normalised path and target, a hard link is a regular file,
      and listing the item's own names again changes nothing. */
  lemma {:induction false} ListedIsNormal(h: Header, order: nat, item: Item)
    requires See(h, order) == Listed(item)
    ensures IsPath(item.path) && Archive.AllowedType(item.mode)
    ensures item.hardlink.Some? ==> IsPath(item.hardlink.value) && Archive.IsRegular(item.mode)
    ensures See(Header(Some(item.path), item.hardlink, h.symlink, item.mode, h.size), order) == Listed(item)
  {
    NormalizedIsPath(h.path.value);
    NormalizeAgain(item.path);
    if item.hardlink.Some? {
      NormalizedIsPath(h.hardlink.value);
      NormalizeAgain(item.hardlink.value);
    }
  }

  lemma {:induction false} NormalizedIsPath(input: string)
    requires Normalize(input).Some? && Normalize(input).value.Below?
    ensures IsPath(Normalize(input).value.path)
  {
  }

  // ----- The single top directory

  /** A directory at the top with everything in it. */
  predicate HoldsAll(items: seq<Item>, i: nat)
    requires i < |items|
  {
    && Archive.IsDirectory(items[i].mode) && '/' !in items[i].path
    && forall j :: 0 <= j < |items| ==> Within(items[j].path, items[i].path)
  }

  /** A top directory has a path of one component, which is also the first of every other path. */
  lemma {:induction false} HoldsAllIff(items: seq<Item>, i: nat)
    requires i < |items|
    ensures HoldsAll(items, i)
            <==> && items[i].mode / 0x1000 % 16 == 4 && '/' !in items[i].path
                 && forall j :: 0 <= j < |items| ==>
                      items[j].path == items[i].path
                      || exists rest :: items[j].path == items[i].path + "/" + rest
  {
    forall j | 0 <= j < |items|
      ensures Within(items[j].path, items[i].path)
              <==> items[j].path == items[i].path || exists rest :: items[j].path == items[i].path + "/" + rest
    {
      WithinIff(items[j].path, items[i].path);
    }
  }

  /** The first item that holds all, or the length of the list. */
  ghost predicate Selects(items: seq<Item>, k: nat) {
    && k <= |items| && (k < |items| ==> HoldsAll(items, k))
    && forall i :: 0 <= i < k ==> !HoldsAll(items, i)
  }

  function PrefixOf(items: seq<Item>, k: nat): string
    requires k <= |items|
  {
    if k < |items| then items[k].path else ""
  }

  /** An item without the prefix; the prefix itself keeps its name. */
  function Stripped(item: Item, prefix: string): Option<Item> {
    var path := Strip(item.path, prefix);
    if path.None? then None
    else
      var own := if path.value.Root? then item.path else path.value.path;
      match item.hardlink
      case None => Some(item.(path := own))
      case Some(l) =>
        match Strip(l, prefix) {
          case Some(Below(t)) => Some(item.(path := own, hardlink := Some(t)))
          case _ => None
        }
  }

  predicate AllStripped(items: seq<Item>, stripped: seq<Item>, prefix: string) {
    |items| == |stripped| && forall i :: 0 <= i < |items| ==> Stripped(items[i], prefix) == Some(stripped[i])
  }

  class TarList {
    var items: seq<Item>

    constructor ()
      ensures items == []
    {
      items := [];
    }

    /** The header loop of the verifier. */
    method Collect(hs: seq<Header>) returns (ok: bool)
      requires items == []
      modifies this
      ensures ok <==> Listing(hs).Some?
      ensures ok ==> items == Listing(hs).value
    {
      for i := 0 to |hs|
        invariant Listing(hs[..i]) == Some(items)
      {
        assert hs[..i + 1][..i] == hs[..i];
        var seen := SeeHeader(hs[i], |items|);
        match seen {
          case Refused =>
            RefusalStays(hs, i + 1);
            return false;
          case Skipped =>
          case Listed(item) =>
            items := items + [item];
        }
      }
      assert hs[..|hs|] == hs;
      return true;
    }

    method HoldsEverything(i: nat) returns (ok: bool)
      requires i < |items|
      ensures ok <==> HoldsAll(items, i)
    {
      if !Archive.IsDirectory(items[i].mode) || '/' in items[i].path {
        return false;
      }
      for j := 0 to |items|
        invariant forall n :: 0 <= n < j ==> Within(items[n].path, items[i].path)
      {
        if !Within(items[j].path, items[i].path) {
          return false;
        }
      }
      return true;
    }

    method Select() returns (k: nat)
      ensures Selects(items, k)
    {
      k := 0;
      while k < |items|
        invariant k <= |items| && forall i :: 0 <= i < k ==> !HoldsAll(items, i)
      {
        var all := HoldsEverything(k);
        if all {
          return;
        }
        k := k + 1;
      }
    }

    /** apply_single_root_prefix: rewrites the names in place and takes the top
        directory out of the list. */
    method ApplyRoot() returns (ok: bool, prefix: string, ghost k: nat)
      modifies this
      ensures Selects(old(items), k) && prefix == PrefixOf(old(items), k)
      ensures k == |old(items)| ==> ok && items == old(items)
      ensures k < |old(items)| ==>
                (ok <==> forall i :: 0 <= i < |old(items)| ==> Stripped(old(items)[i], prefix).Some?)
      ensures ok && k < |old(items)| ==>
                exists stripped :: AllStripped(old(items), stripped, prefix)
                                   && items == stripped[..k] + stripped[k + 1..]
    {
      var selected := Select();
      k := selected;
      prefix := PrefixOf(items, selected);
      if selected == |items| {
        return true, prefix, k;
      }
      ghost var before := items;
      for i := 0 to |items|
        invariant |items| == |before| && forall j :: i <= j < |before| ==> items[j] == before[j]
        invariant forall j :: 0 <= j < i ==> Stripped(before[j], prefix) == Some(items[j])
      {
        var stripped := Stripped(items[i], prefix);
        if stripped.None? {
          return false, prefix, k;
        }
        items := items[i := stripped.value];
      }
      assert AllStripped(before, items, prefix);
      items := items[..selected] + items[selected + 1..];
      ok := true;
    }
  }

  // ----- Hard links

  function PathKey(): Item -> string { (item: Item) => item.path }

  /** t is a regular file, not itself a link, that comes before the link to it. */
  predicate Resolves(t: Item, link: Item) {
    link.hardlink == Some(t.path) && Archive.IsRegular(t.mode) && t.hardlink.None? && t.order < link.order
  }

  ghost predicate LinksResolve(items: seq<Item>) {
    forall link :: link in items && link.hardlink.Some? ==> exists t :: t in items && Resolves(t, link)
  }

  lemma {:induction false} OnlyOneAtPath(items: seq<Item>, a: Item, b: Item)
    requires Sorting.DistinctKeys(items, PathKey()) && a in items && b in items && a.path == b.path
    ensures a == b
  {
    var i :| 0 <= i < |items| && items[i] == a;
    var j :| 0 <= j < |items| && items[j] == b;
  }

  /** verify_tar_hardlinks */
  method VerifyHardlinks(items: seq<Item>) returns (ok: bool)
    requires Sorting.Ordered(items, PathKey()) && Sorting.DistinctKeys(items, PathKey())
    ensures ok <==> LinksResolve(items)
  {
    for index := 0 to |items|
      invariant forall i :: 0 <= i < index && items[i].hardlink.Some? ==>
                  exists t :: t in items && Resolves(t, items[i])
    {
      var item := items[index];
      if item.hardlink.Some? {
        var target := Sorting.Bsearch(items, PathKey(), item.hardlink.value);
        if target.None? || !Resolves(target.value, item) {
          if target.Some? {
            forall t | t in items && t.path == item.hardlink.value ensures target == Some(t) {
              OnlyOneAtPath(items, target.value, t);
            }
          }
          assert item in items;
          return false;
        }
      }
    }
    return true;
  }

  // ----- The verdict on the names

  function Without(items: seq<Item>, k: nat): seq<Item> {
    if k < |items| then items[..k] + items[k + 1..] else items
  }

  /** The headers are accepted: this is the item that is taken out, and these are the
      items with their final names, in archive order. */
  ghost predicate Accepted(hs: seq<Header>, k: nat, stripped: seq<Item>) {
    && Listing(hs).Some? && Selects(Listing(hs).value, k)
    && AllStripped(Listing(hs).value, stripped, PrefixOf(Listing(hs).value, k))
    && Sorting.DistinctKeys(Without(stripped, k), PathKey()) && LinksResolve(Without(stripped, k))
  }

  lemma {:induction false} VerdictIsUnique(hs: seq<Header>, k: nat, stripped: seq<Item>, k': nat, stripped': seq<Item>)
    requires Listing(hs).Some? && Selects(Listing(hs).value, k) && Accepted(hs, k', stripped')
    ensures k == k'
    ensures AllStripped(Listing(hs).value, stripped, PrefixOf(Listing(hs).value, k)) ==> stripped == stripped'
  {
    var items := Listing(hs).value;
    assert k < |items| ==> HoldsAll(items, k);
    assert k' < |items| ==> HoldsAll(items, k');
    if AllStripped(items, stripped, PrefixOf(items, k)) {
      forall i | 0 <= i < |items| ensures stripped[i] == stripped'[i] {
        assert Stripped(items[i], PrefixOf(items, k)) == Some(stripped[i]);
      }
    }
  }

  lemma {:induction false} NoPrefixNoChange(items: seq<Item>)
    ensures AllStripped(items, items, "")
  {
  }

  lemma {:induction false} LinksResolveAnyOrder(a: seq<Item>, b: seq<Item>)
    requires multiset(a) == multiset(b)
    ensures LinksResolve(a) <==> LinksResolve(b)
  {
    Sorting.SameMembers(a, b);
  }

  /** Sorting, the test of neighbours, and the search of every link's target. */
  method CheckList(items: seq<Item>) returns (ok: bool, sorted: seq<Item>)
    ensures ok <==> Sorting.DistinctKeys(items, PathKey()) && LinksResolve(items)
    ensures multiset(sorted) == multiset(items) && Sorting.Ordered(sorted, PathKey())
  {
    sorted := Sorting.Qsort(items, PathKey());
    var duplicate := Sorting.AdjacentDuplicate(sorted, PathKey());
    if Sorting.DistinctKeys(items, PathKey()) {
      Sorting.DistinctAfterSort(items, sorted, PathKey());
    }
    if duplicate {
      return false, sorted;
    }
    Sorting.DistinctAfterSort(sorted, items, PathKey());
    ok := VerifyHardlinks(sorted);
    LinksResolveAnyOrder(items, sorted);
  }

  /** The names of a tar archive in bp_tar_gzip_verify_internal: the prefix and the
      sorted list, or None for a refusal. */
  method VerifyNames(hs: seq<Header>) returns (r: Option<(string, seq<Item>)>, ghost k: nat, ghost stripped: seq<Item>)
    ensures r.Some? ==> Accepted(hs, k, stripped) && r.value.0 == PrefixOf(Listing(hs).value, k)
                        && multiset(r.value.1) == multiset(Without(stripped, k))
    ensures r.None? ==> forall k', stripped' :: !Accepted(hs, k', stripped')
  {
    k, stripped := 0, [];
    var list := new TarList();
    var ok := list.Collect(hs);
    if !ok {
      return None, k, stripped;
    }
    var prefix;
    ok, prefix, k := list.ApplyRoot();
    if !ok {
      forall k', stripped' ensures !Accepted(hs, k', stripped') {
        if Accepted(hs, k', stripped') {
          VerdictIsUnique(hs, k, stripped, k', stripped');
        }
      }
      return None, k, stripped;
    }
    if k < |Listing(hs).value| {
      stripped :| AllStripped(Listing(hs).value, stripped, prefix) && list.items == stripped[..k] + stripped[k + 1..];
    } else {
      NoPrefixNoChange(list.items);
      stripped := list.items;
    }
    var sorted;
    ok, sorted := CheckList(list.items);
    if !ok {
      forall k', stripped' ensures !Accepted(hs, k', stripped') {
        if Accepted(hs, k', stripped') {
          VerdictIsUnique(hs, k, stripped, k', stripped');
        }
      }
      return None, k, stripped;
    }
    return Some((prefix, sorted)), k, stripped;
  }
}
