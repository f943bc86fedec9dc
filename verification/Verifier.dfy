/**
  bp_cpio_verify_internal: which archives are accepted, and what is reported about
  them. The loop with its cursor and its list of paths is proved against a reading
  of the whole byte string, and that reading is then spelt out.
*/
module Verifier {
  import opened CStrings
  import opened Archive
  import opened ArchiveReader
  import Config
  import Newc
  import Sorting

  const EntryLimit: nat := 1_000_000
  const ConfigLimit: nat := 65536
  const Uint64Size: nat := 0x1_0000_0000_0000_0000

  datatype PathItem = PathItem(path: string, mode: nat, uid: nat, gid: nat)

  /** Whether a bootable root is asked for, and the files the verifier looks for; the
      configuration is in the directory etc. */
  datatype Policy = Policy(recovery: bool, config: string, shell: string, progress: string, etc: string)

  function Standard(recovery: bool): Policy {
    Policy(recovery, "etc" + ['/'] + "burning-progress.conf", "bin" + ['/'] + "sh",
           "sbin" + ['/'] + "burning-progress", "etc")
  }

  lemma {:induction false} ConfigName(recovery: bool)
    ensures Standard(recovery).config == "etc/burning-progress.conf" && Standard(recovery).etc == "etc"
  {
  }

  lemma {:induction false} ProgramNames(recovery: bool)
    ensures Standard(recovery).shell == "bin/sh" && Standard(recovery).progress == "sbin/burning-progress"
  {
  }

  /** What the caller learns about an archive. */
  datatype Info = Info(entries: nat, dataBytes: nat, runtime: Config.RuntimeConfig)

  // ----- Which entries are accepted

  predicate ValidName(name: string) {
    name != "" && name[0] != '/' && |name| <= NameLimit && Config.PlainPath(Split(name, '/'))
  }

  /** An accepted name is relative, not too long, and has no . or .. in it. */
  lemma {:induction false} ValidNameIff(name: string)
    ensures ValidName(name) <==>
              name != "" && name[0] != '/' && |name| <= 4096 && Config.NoDots(Split(name, '/'))
  {
    Config.PlainPathIff(Split(name, '/'));
  }

  /** valid_archive_name */
  method IsValidName(name: string) returns (ok: bool)
    ensures ok <==> ValidName(name)
  {
    if name == "" || name[0] == '/' || |name| > NameLimit {
      return false;
    }
    ok := Config.ComponentsArePlain(name);
  }

  predicate Named(es: seq<Entry>, name: string) {
    exists i :: 0 <= i < |es| && es[i].name == name
  }

  /** What the loop asks of an entry before it looks at the data. */
  predicate HeaderAccepted(policy: Policy, before: seq<Entry>, name: string, mode: nat, size: nat) {
    && ValidName(name) && AllowedType(mode) && !Named(before, name)
    && (IsDirectory(mode) ==> size == 0) && (IsLink(mode) ==> size <= NameLimit)
    && |before| < EntryLimit
    && (name == policy.config ==> IsRegular(mode) && size <= ConfigLimit)
  }

  predicate DataAccepted(policy: Policy, name: string, mode: nat, data: string) {
    name == policy.config || IsLink(mode) ==> NUL !in data
  }

  predicate EntryAccepted(policy: Policy, before: seq<Entry>, e: Entry) {
    HeaderAccepted(policy, before, e.name, e.mode, |e.data|) && DataAccepted(policy, e.name, e.mode, e.data)
  }

  /** Whether an entry is accepted behind others. */
  type Accept = (seq<Entry>, Entry) -> bool

  function Acceptance(policy: Policy): Accept {
    (before, e) => EntryAccepted(policy, before, e)
  }

  /** Every entry is accepted behind those before it. */
  predicate Accepted(accept: Accept, es: seq<Entry>) {
    es == [] || (Accepted(accept, es[..|es| - 1]) && accept(es[..|es| - 1], es[|es| - 1]))
  }

  /** The entries of an archive that are all accepted. */
  function Listed(accept: Accept, front: Front, archive: string): Option<seq<Entry>> {
    var es := Parse(front, archive);
    if es.Some? && Accepted(accept, es.value) then es else None
  }

  function Total(es: seq<Entry>): nat {
    if es == [] then 0 else Total(es[..|es| - 1]) + |es[|es| - 1].data|
  }

  /** The text of the runtime configuration, if the archive has one. */
  function ConfigText(policy: Policy, es: seq<Entry>): Option<string> {
    if es == [] then None
    else
      var last := es[|es| - 1];
      if last.name == policy.config then Some(last.data) else ConfigText(policy, es[..|es| - 1])
  }

  predicate RegularAt(es: seq<Entry>, name: string) {
    exists i :: 0 <= i < |es| && es[i].name == name && IsRegular(es[i].mode)
  }

  predicate RunnableAt(es: seq<Entry>, name: string) {
    exists i :: 0 <= i < |es| && es[i].name == name && (IsRegular(es[i].mode) || IsLink(es[i].mode))
  }

  function RuntimeOf(policy: Policy, es: seq<Entry>): Option<Config.RuntimeConfig> {
    match ConfigText(policy, es)
    case None => Some(Config.RuntimeDefault)
    case Some(text) => Config.ParsedRuntime(text)
  }

  /** What is asked of a root file system that the launcher is to start. */
  predicate Bootable(policy: Policy, es: seq<Entry>, runtime: Config.RuntimeConfig) {
    && RunnableAt(es, policy.shell) && RunnableAt(es, policy.progress)
    && (runtime.entryMode == Config.Handoff ==> RegularAt(es, BelowRoot(runtime.entry)))
  }

  /** An absolute path without its leading slash. */
  function BelowRoot(path: string): string { if path == "" then "" else path[1..] }

  /** The file that an absolute entry names. */
  predicate HasFileAt(es: seq<Entry>, entry: string) {
    exists i :: 0 <= i < |es| && entry == "/" + es[i].name && IsRegular(es[i].mode)
  }

  lemma {:induction false} BootableIff(policy: Policy, es: seq<Entry>, runtime: Config.RuntimeConfig)
    requires Config.ValidEntry(runtime.entry)
    ensures Bootable(policy, es, runtime)
            <==> && RunnableAt(es, policy.shell) && RunnableAt(es, policy.progress)
                 && (runtime.entryMode.Supervised? || HasFileAt(es, runtime.entry))
  {
    var name := BelowRoot(runtime.entry);
    assert runtime.entry == "/" + name;
    forall i | 0 <= i < |es| && runtime.entry == "/" + es[i].name ensures es[i].name == name {
      assert ("/" + es[i].name)[1..] == es[i].name;
    }
  }

  /** What is reported when all these entries are accepted. */
  function Report(policy: Policy, es: seq<Entry>): Option<Info> {
    var runtime := RuntimeOf(policy, es);
    if runtime.None? || (policy.recovery && !Bootable(policy, es, runtime.value)) then None
    else Some(Info(|es|, Total(es), runtime.value))
  }

  /** The outcome for a byte string. */
  function Verified(policy: Policy, front: Front, archive: string): Option<Info> {
    match Listed(Acceptance(policy), front, archive)
    case None => None
    case Some(es) => Report(policy, es)
  }

  // ----- The loop over the entries

  function Items(es: seq<Entry>): (items: seq<PathItem>)
    ensures |items| == |es|
  {
    seq(|es|, i requires 0 <= i < |es| => PathItem(es[i].name, es[i].mode, es[i].uid, es[i].gid))
  }

  /** find_path */
  method FindPath(paths: seq<PathItem>, path: string) returns (r: Option<PathItem>)
    ensures r.Some? ==> r.value in paths && r.value.path == path
    ensures r.None? ==> forall p :: p in paths ==> p.path != path
  {
    for i := 0 to |paths|
      invariant forall p :: p in paths[..i] ==> p.path != path
    {
      if paths[i].path == path {
        return Some(paths[i]);
      }
      assert paths[..i + 1] == paths[..i] + [paths[i]];
    }
    assert paths[..|paths|] == paths;
    return None;
  }

  method CheckHeader(policy: Policy, paths: seq<PathItem>, ghost es: seq<Entry>, p: Prefix) returns (ok: bool)
    requires paths == Items(es)
    ensures ok <==> HeaderAccepted(policy, es, p.name, p.header.mode, p.header.fileSize)
  {
    var mode, size := p.header.mode, p.header.fileSize;
    var valid := IsValidName(p.name);
    var listed := FindPath(paths, p.name);
    NamedIffListed(es, p.name);
    if !valid || !AllowedType(mode) || listed.Some? || (IsDirectory(mode) && size != 0)
       || (IsLink(mode) && size > NameLimit) {
      return false;
    }
    if |paths| >= EntryLimit {
      return false;
    }
    ok := p.name != policy.config || (IsRegular(mode) && size <= ConfigLimit);
  }

  lemma {:induction false} NamedIffListed(es: seq<Entry>, name: string)
    ensures Named(es, name) <==> exists p :: p in Items(es) && p.path == name
  {
    if Named(es, name) {
      var i :| 0 <= i < |es| && es[i].name == name;
      assert Items(es)[i].path == name;
    }
  }

  /** The entry with prefix p whose data starts at this offset. */
  function EntryAt(p: Prefix, archive: string, offset: nat): Entry
    requires offset + p.header.fileSize <= |archive|
  {
    Entry(p.header.mode, p.header.uid, p.header.gid, p.name, archive[offset..offset + p.header.fileSize])
  }

  /** There is an acceptable entry whose data starts at this offset. */
  predicate AcceptedAt(accept: Accept, es: seq<Entry>, p: Prefix, archive: string, offset: nat) {
    offset + BodySize(p.header.fileSize) <= |archive| && accept(es, EntryAt(p, archive, offset))
  }

  /** Reads or skips the data of an entry; what is kept must not contain a NUL. */
  method TakeData(reader: Reader, size: nat, capture: bool, link: bool) returns (ok: bool, text: Option<string>)
    requires reader.Valid()
    modifies reader
    ensures reader.Valid()
    ensures var start := old(reader.pos);
            ok <==> start + BodySize(size) <= |reader.data|
                    && (capture || link ==> NUL !in reader.data[start..start + size])
    ensures ok ==> reader.pos == old(reader.pos) + BodySize(size)
    ensures ok ==> text == if capture then Some(reader.data[old(reader.pos)..old(reader.pos) + size]) else None
  {
    if capture || link {
      var data := reader.ReadData(size);
      if data.None? || NUL in data.value {
        return false, None;
      }
      return true, if capture then data else None;
    }
    ok := reader.SkipData(size);
    return ok, None;
  }

  // ----- What a turn of the loop means for the whole

  lemma {:induction false} AcceptedPrefix(accept: Accept, a: seq<Entry>, b: seq<Entry>)
    requires Accepted(accept, a + b)
    ensures Accepted(accept, a)
    decreases |b|
  {
    if b == [] {
      assert a + b == a;
    } else {
      var all := a + b;
      assert all[..|all| - 1] == a + b[..|b| - 1];
      AcceptedPrefix(accept, a, b[..|b| - 1]);
    }
  }

  lemma {:induction false} AcceptedNext(accept: Accept, es: seq<Entry>, e: Entry, more: seq<Entry>)
    requires Accepted(accept, es + [e] + more)
    ensures accept(es, e)
  {
    AcceptedPrefix(accept, es + [e], more);
    assert (es + [e])[..|es|] == es;
  }

  /** Where the loop stands: the entries so far, and what is left to parse. */
  ghost predicate Stands(accept: Accept, front: Front, archive: string, es: seq<Entry>, pos: nat) {
    pos <= |archive| && Accepted(accept, es) && Parse(front, archive) == PrependAll(es, Parse(front, archive[pos..]))
  }

  lemma {:induction false} NothingLeft(accept: Accept, front: Front, archive: string, es: seq<Entry>,
      rest: Option<seq<Entry>>)
    requires Parse(front, archive) == PrependAll(es, rest) && rest == None
    ensures Listed(accept, front, archive) == None
  {
  }

  lemma {:induction false} EntryNext(front: Front, archive: string, pos: nat, p: Prefix, data: nat, next: nat)
    requires Sized(front) && pos <= |archive| && front(archive[pos..]) == Some(p) && p.name != TrailerName
    requires data == pos + p.size && next == data + BodySize(p.header.fileSize)
    ensures Parse(front, archive[pos..])
            == if next > |archive| then None
               else Prepend(EntryAt(p, archive, data), Parse(front, archive[next..]))
  {
    if next <= |archive| {
      SliceOfSlice(archive, pos, p.size, p.size + p.header.fileSize);
      SliceOfSlice(archive, pos, p.size + BodySize(p.header.fileSize), |archive| - pos);
    }
  }

  lemma {:induction false} SliceOfSlice(s: string, pos: nat, from: nat, to: nat)
    requires pos <= |s| && from <= to <= |s| - pos
    ensures s[pos..][from..to] == s[pos + from..pos + to]
    ensures s[pos..][from..] == s[pos + from..]
  {
  }

  /** The whole archive, when an entry is complete behind those that were read. */
  lemma {:induction false} TurnParsed(front: Front, archive: string, es: seq<Entry>, pos: nat, p: Prefix, data: nat,
      next: nat)
    requires Sized(front) && pos <= |archive| && Parse(front, archive) == PrependAll(es, Parse(front, archive[pos..]))
    requires front(archive[pos..]) == Some(p) && p.name != TrailerName
    requires data == pos + p.size && next == data + BodySize(p.header.fileSize)
    ensures Parse(front, archive)
            == if next > |archive| then None
               else PrependAll(es + [EntryAt(p, archive, data)], Parse(front, archive[next..]))
  {
    EntryNext(front, archive, pos, p, data, next);
    if next <= |archive| {
      PrependTwice(es, EntryAt(p, archive, data), Parse(front, archive[next..]));
    }
  }

  lemma {:induction false} EntryRefused(accept: Accept, front: Front, archive: string, es: seq<Entry>, e: Entry,
      rest: Option<seq<Entry>>)
    requires Parse(front, archive) == PrependAll(es + [e], rest) && !accept(es, e)
    ensures Listed(accept, front, archive) == None
  {
    if rest.Some? && Accepted(accept, es + [e] + rest.value) {
      AcceptedNext(accept, es, e, rest.value);
    }
  }

  lemma {:induction false} TurnRefused(accept: Accept, front: Front, archive: string, es: seq<Entry>, pos: nat,
      p: Prefix, data: nat)
    requires Sized(front) && Stands(accept, front, archive, es, pos) && data == pos + p.size
    requires front(archive[pos..]) == Some(p) && p.name != TrailerName
    requires !AcceptedAt(accept, es, p, archive, data)
    ensures Listed(accept, front, archive) == None
  {
    var next := data + BodySize(p.header.fileSize);
    TurnParsed(front, archive, es, pos, p, data, next);
    if next <= |archive| {
      EntryRefused(accept, front, archive, es, EntryAt(p, archive, data), Parse(front, archive[next..]));
    }
  }

  lemma {:induction false} TurnTaken(accept: Accept, front: Front, archive: string, es: seq<Entry>, pos: nat,
      p: Prefix, data: nat, next: nat)
    requires Sized(front) && Stands(accept, front, archive, es, pos)
    requires data == pos + p.size && next == data + BodySize(p.header.fileSize)
    requires front(archive[pos..]) == Some(p) && p.name != TrailerName
    requires AcceptedAt(accept, es, p, archive, data)
    ensures Stands(accept, front, archive, es + [EntryAt(p, archive, data)], next)
  {
    TurnParsed(front, archive, es, pos, p, data, next);
    var e := EntryAt(p, archive, data);
    assert Accepted(accept, es + [e]) by {
      assert (es + [e])[..|es|] == es;
    }
  }

  lemma {:induction false} TrailerNext(accept: Accept, front: Front, archive: string, es: seq<Entry>, pos: nat,
      p: Prefix)
    requires Stands(accept, front, archive, es, pos) && front(archive[pos..]) == Some(p) && p.name == TrailerName
    ensures Parse(front, archive)
            == if p.header.fileSize == 0 && pos + p.size == |archive| then Some(es) else None
  {
    assert es + [] == es;
  }

  // ----- The whole of it

  datatype Turn = Refused | Ended | Took(item: PathItem, size: nat, text: Option<string>)

  /** accept is the acceptance of the policy, seen as any function. */
  ghost predicate Follows(accept: Accept, policy: Policy) {
    forall before, e {:trigger EntryAccepted(policy, before, e)} ::
      accept(before, e) == EntryAccepted(policy, before, e)
  }

  /** The checks on a header and the data behind it. */
  method TakeEntry(policy: Policy, ghost accept: Accept, reader: Reader, p: Prefix, paths: seq<PathItem>,
      ghost es: seq<Entry>)
    returns (ok: bool, text: Option<string>)
    requires Follows(accept, policy) && reader.Valid() && paths == Items(es)
    modifies reader
    ensures reader.Valid()
    ensures ok <==> AcceptedAt(accept, es, p, reader.data, old(reader.pos))
    ensures ok ==> |es| < EntryLimit
    ensures ok ==> reader.pos == old(reader.pos) + BodySize(p.header.fileSize)
    ensures ok ==> text == if p.name == policy.config then Some(EntryAt(p, reader.data, old(reader.pos)).data) else None
  {
    text := None;
    ghost var start := reader.pos;
    ok := CheckHeader(policy, paths, es, p);
    if ok {
      ok, text := TakeData(reader, p.header.fileSize, p.name == policy.config, IsLink(p.header.mode));
    }
    if start + BodySize(p.header.fileSize) <= |reader.data| {
      assert ok <==> EntryAccepted(policy, es, EntryAt(p, reader.data, start));
    }
  }

  /** The rest of a turn behind the prefix of an entry. */
  method FinishTurn(policy: Policy, ghost accept: Accept, reader: Reader, p: Prefix, paths: seq<PathItem>,
      ghost es: seq<Entry>, ghost start: nat)
    returns (turn: Turn, ghost e: Entry)
    requires Follows(accept, policy) && reader.Valid() && Stands(accept, reader.front, reader.data, es, start)
    requires paths == Items(es)
    requires reader.front(reader.data[start..]) == Some(p) && p.name != TrailerName && reader.pos == start + p.size
    modifies reader
    ensures reader.Valid()
    ensures turn.Took? || (turn.Refused? && Listed(accept, reader.front, reader.data) == None)
    ensures turn.Took? ==>
      && |es| < EntryLimit && Stands(accept, reader.front, reader.data, es + [e], reader.pos)
      && reader.pos > start
      && turn.item == PathItem(e.name, e.mode, e.uid, e.gid) && turn.size == |e.data| <= Uint32Max
      && turn.text == if e.name == policy.config then Some(e.data) else None
  {
    ghost var data := reader.pos;
    var ok, text := TakeEntry(policy, accept, reader, p, paths, es);
    if ok {
      e := EntryAt(p, reader.data, data);
      TurnTaken(accept, reader.front, reader.data, es, start, p, data, reader.pos);
      turn := Took(PathItem(p.name, p.header.mode, p.header.uid, p.header.gid), p.header.fileSize, text);
    } else {
      e := Entry(0, 0, 0, "", "");
      TurnRefused(accept, reader.front, reader.data, es, start, p, data);
      turn := Refused;
    }
  }

  /** One turn of the loop: a header, the checks on it, and the data behind it. */
  method TakeTurn(policy: Policy, ghost accept: Accept, reader: Reader, paths: seq<PathItem>, ghost es: seq<Entry>)
    returns (turn: Turn, ghost e: Entry)
    requires Follows(accept, policy) && reader.Valid() && Stands(accept, reader.front, reader.data, es, reader.pos)
    requires paths == Items(es)
    modifies reader
    ensures reader.Valid()
    ensures turn.Refused? ==> Listed(accept, reader.front, reader.data) == None
    ensures turn.Ended? ==> Parse(reader.front, reader.data) == Some(es)
    ensures turn.Took? ==>
      && |es| < EntryLimit && Stands(accept, reader.front, reader.data, es + [e], reader.pos)
      && reader.pos > old(reader.pos)
      && turn.item == PathItem(e.name, e.mode, e.uid, e.gid) && turn.size == |e.data| <= Uint32Max
      && turn.text == if e.name == policy.config then Some(e.data) else None
  {
    e := Entry(0, 0, 0, "", "");
    ghost var start := reader.pos;
    var prefix := reader.ReadPrefix();
    if prefix.None? {
      NothingLeft(accept, reader.front, reader.data, es, Parse(reader.front, reader.data[start..]));
      return Refused, e;
    }
    if prefix.value.name == TrailerName {
      TrailerNext(accept, reader.front, reader.data, es, start, prefix.value);
      return if prefix.value.header.fileSize != 0 || reader.pos < |reader.data| then Refused else Ended, e;
    }
    turn, e := FinishTurn(policy, accept, reader, prefix.value, paths, es, start);
  }

  datatype Listing = Listing(paths: seq<PathItem>, dataBytes: nat, text: Option<string>)

  predicate ListingOf(policy: Policy, es: seq<Entry>, l: Listing) {
    && l.paths == Items(es) && l.dataBytes == Total(es) <= |es| * Uint32Max && l.text == ConfigText(policy, es)
  }

  /** Lists one more entry; data_bytes is a 64-bit sum that never wraps. */
  method AddEntry(ghost policy: Policy, l: Listing, turn: Turn, ghost es: seq<Entry>, ghost e: Entry)
    returns (l': Listing)
    requires ListingOf(policy, es, l) && |es| < EntryLimit && turn.Took?
    requires turn.item == PathItem(e.name, e.mode, e.uid, e.gid) && turn.size == |e.data| <= Uint32Max
    requires turn.text == if e.name == policy.config then Some(e.data) else None
    ensures ListingOf(policy, es + [e], l')
  {
    l' := Listing(l.paths + [turn.item], (l.dataBytes + turn.size) % Uint64Size,
                  if turn.text.Some? then turn.text else l.text);
    assert (es + [e])[..|es|] == es;
  }

  method ListEntries(policy: Policy, ghost accept: Accept, reader: Reader)
    returns (r: Option<Listing>, ghost es: seq<Entry>)
    requires Follows(accept, policy) && reader.Valid() && reader.pos == 0
    modifies reader
    ensures r.None? ==> Listed(accept, reader.front, reader.data) == None
    ensures r.Some? ==>
              Parse(reader.front, reader.data) == Some(es) && Accepted(accept, es) && ListingOf(policy, es, r.value)
  {
    es := [];
    var listing := Listing([], 0, None);
    assert reader.data[0..] == reader.data;
    PrependNothing(Parse(reader.front, reader.data));
    while true
      invariant reader.Valid() && Stands(accept, reader.front, reader.data, es, reader.pos)
      invariant ListingOf(policy, es, listing)
      decreases |reader.data| - reader.pos
    {
      var turn, e := TakeTurn(policy, accept, reader, listing.paths, es);
      if turn.Refused? {
        return None, es;
      }
      if turn.Ended? {
        return Some(listing), es;
      }
      listing := AddEntry(policy, listing, turn, es, e);
      es := es + [e];
    }
  }

  // ----- Behind the loop

  function PathOf(): PathItem -> string {
    (item: PathItem) => item.path
  }

  predicate DistinctNames(es: seq<Entry>) {
    forall i, j :: 0 <= i < j < |es| ==> es[i].name != es[j].name
  }

  lemma {:induction false} DistinctItems(es: seq<Entry>)
    requires DistinctNames(es)
    ensures Sorting.DistinctKeys(Items(es), PathOf())
  {
    assert forall i :: 0 <= i < |es| ==> Items(es)[i].path == es[i].name;
  }

  /** A search of the sorted paths tells whether a file of some kind is there. */
  method HasKind(paths: seq<PathItem>, ghost es: seq<Entry>, name: string, links: bool) returns (ok: bool)
    requires multiset(paths) == multiset(Items(es)) && DistinctNames(es)
    ensures ok <==> if links then RunnableAt(es, name) else RegularAt(es, name)
  {
    Sorting.SameMembers(paths, Items(es));
    var item := FindPath(paths, name);
    if item.None? {
      assert forall i :: 0 <= i < |es| ==> Items(es)[i] in paths && Items(es)[i].path == es[i].name;
      return false;
    }
    ghost var i :| 0 <= i < |es| && Items(es)[i] == item.value;
    ok := IsRegular(item.value.mode) || (links && IsLink(item.value.mode));
    assert es[i].name == name && es[i].mode == item.value.mode;
  }

  method Finish(policy: Policy, listing: Listing, ghost es: seq<Entry>) returns (r: Option<Info>)
    requires ListingOf(policy, es, listing) && DistinctNames(es)
    ensures r == Report(policy, es)
  {
    var paths := Sorting.Qsort(listing.paths, PathOf());
    DistinctItems(es);
    Sorting.DistinctAfterSort(listing.paths, paths, PathOf());
    var duplicate := Sorting.AdjacentDuplicate(paths, PathOf());
    if duplicate {
      return None;
    }
    if policy.recovery {
      var shell := HasKind(paths, es, policy.shell, true);
      var progress := HasKind(paths, es, policy.progress, true);
      if !shell || !progress {
        return None;
      }
    }
    var runtime := Some(Config.RuntimeDefault);
    if listing.text.Some? {
      runtime := Config.ParseRuntime(listing.text.value);
      if runtime.None? {
        return None;
      }
    }
    if policy.recovery && runtime.value.entryMode == Config.Handoff {
      var entry := HasKind(paths, es, BelowRoot(runtime.value.entry), false);
      if !entry {
        return None;
      }
    }
    return Some(Info(|listing.paths|, listing.dataBytes, runtime.value));
  }

  lemma {:induction false} AcceptedAreDistinct(policy: Policy, es: seq<Entry>)
    requires Accepted(Acceptance(policy), es)
    ensures DistinctNames(es)
  {
    if es != [] {
      var k := |es| - 1;
      AcceptedAreDistinct(policy, es[..k]);
      assert !Named(es[..k], es[k].name);
      forall i, j | 0 <= i < j < |es| ensures es[i].name != es[j].name {
        assert es[..k][i].name == es[i].name;
        if j < k {
          assert es[..k][j] == es[j];
        }
      }
    }
  }

  /** bp_cpio_verify_internal */
  method VerifyArchive(policy: Policy, archive: string) returns (r: Option<Info>)
    ensures r == Verified(policy, Newc.PrefixOf, archive)
  {
    var reader := new Reader(archive);
    var listing, es := ListEntries(policy, Acceptance(policy), reader);
    if listing.None? {
      return None;
    }
    AcceptedAreDistinct(policy, es);
    r := Finish(policy, listing.value, es);
  }

  // ----- What acceptance means

  /** An entry that may stand anywhere in an accepted archive. */
  predicate SoundEntry(policy: Policy, e: Entry) {
    && ValidName(e.name) && AllowedType(e.mode)
    && (IsDirectory(e.mode) ==> e.data == "")
    && (IsLink(e.mode) ==> |e.data| <= 4096 && '\0' !in e.data)
    && (e.name == policy.config ==> IsRegular(e.mode) && |e.data| <= 65536 && '\0' !in e.data)
  }

  predicate Sound(policy: Policy, es: seq<Entry>) {
    |es| <= 1_000_000 && DistinctNames(es) && forall i :: 0 <= i < |es| ==> SoundEntry(policy, es[i])
  }

  lemma {:induction false} AcceptedIffSound(policy: Policy, es: seq<Entry>)
    ensures Accepted(Acceptance(policy), es) <==> Sound(policy, es)
  {
    if es != [] {
      var k := |es| - 1;
      AcceptedIffSound(policy, es[..k]);
      SoundStep(policy, es[..k], es[k]);
      assert es == es[..k] + [es[k]];
    }
  }

  lemma {:induction false} SoundStep(policy: Policy, es: seq<Entry>, e: Entry)
    ensures Sound(policy, es + [e]) <==> Sound(policy, es) && EntryAccepted(policy, es, e)
  {
    var all := es + [e];
    assert all[|es|] == e && forall i :: 0 <= i < |es| ==> all[i] == es[i];
    assert EntryAccepted(policy, es, e) <==> SoundEntry(policy, e) && !Named(es, e.name) && |es| < EntryLimit;
  }

  /** What a caller knows from the outcome, in terms of bytes and entries alone:
      the archive is a complete sequence of entries that ends with its trailer,
      the entries are sound, and the report counts them exactly. */
  ghost predicate Describes(policy: Policy, archive: string, es: seq<Entry>, info: Info) {
    && IsArchive(Newc.PrefixOf, archive, es) && Sound(policy, es)
    && RuntimeOf(policy, es) == Some(info.runtime)
    && (policy.recovery ==> Bootable(policy, es, info.runtime))
    && info.entries == |es| && info.dataBytes == Total(es)
  }

  lemma {:induction false} VerifiedMeans(policy: Policy, archive: string, info: Info)
    ensures Verified(policy, Newc.PrefixOf, archive) == Some(info)
            <==> exists es :: Describes(policy, archive, es, info)
  {
    Newc.PrefixesAreSized();
    var parsed := Parse(Newc.PrefixOf, archive);
    if parsed.Some? {
      ParseIffArchive(Newc.PrefixOf, archive, parsed.value);
      AcceptedIffSound(policy, parsed.value);
      if Verified(policy, Newc.PrefixOf, archive) == Some(info) {
        assert Describes(policy, archive, parsed.value, info);
      }
    }
    forall es | Describes(policy, archive, es, info) ensures parsed == Some(es) {
      ParseIffArchive(Newc.PrefixOf, archive, es);
    }
  }
}
