/**
  How a newc archive is framed: a prefix with a header and a name, the data, and
  the next prefix behind it, up to an entry with the trailer's name. The syntax of
  a prefix is a parameter, a function from the front of a byte string to what is
  read there; module Newc supplies it.
*/
module Archive {
  import opened CStrings

  const HeaderSize: nat := 110
  const NameLimit: nat := 4096
  const TrailerName := "TRAILER!!!"
  const Uint32Max: nat := 0xffff_ffff
  const NUL := '\0'

  /** The fields of a header that the program looks at. */
  datatype Header = Header(mode: nat, uid: nat, gid: nat, fileSize: nat, nameSize: nat)

  datatype Entry = Entry(mode: nat, uid: nat, gid: nat, name: string, data: string)

  /** A header with the name behind it; size counts the bytes up to the data. */
  datatype Prefix = Prefix(header: Header, name: string, size: nat)

  type Front = string -> Option<Prefix>

  // ----- File types

  predicate IsRegular(mode: nat) { mode / 0x1000 % 16 == 8 }

  predicate IsDirectory(mode: nat) { mode / 0x1000 % 16 == 4 }

  predicate IsLink(mode: nat) { mode / 0x1000 % 16 == 10 }

  predicate AllowedType(mode: nat) { IsRegular(mode) || IsDirectory(mode) || IsLink(mode) }

  /** S_IFREG, S_IFDIR and S_IFLNK, whatever the permissions are. */
  lemma {:induction false} FileTypes(perm: nat)
    requires perm < 0x1000
    ensures IsRegular(0x8000 + perm) && IsDirectory(0x4000 + perm) && IsLink(0xa000 + perm)
    ensures !AllowedType(0x1000 + perm) && !AllowedType(0x2000 + perm) && !AllowedType(0x6000 + perm)
    ensures !AllowedType(0xc000 + perm)
  {
  }

  /** mode & 07777 */
  function Permissions(mode: nat): nat { mode % 0x1000 }

  // ----- Alignment

  function Padding(size: nat): (p: nat)
    ensures p < 4 && (size + p) % 4 == 0
  {
    (4 - size % 4) % 4
  }

  function Zeros(n: nat): (z: string)
    ensures |z| == n && forall i :: 0 <= i < n ==> z[i] == '\0'
  {
    seq(n, i => NUL)
  }

  // ----- Reading

  /** How many bytes the data of an entry takes. */
  function BodySize(fileSize: nat): nat { fileSize + Padding(fileSize) }

  function PrefixSize(name: string): nat {
    HeaderSize + |name| + 1 + Padding(HeaderSize + |name| + 1)
  }

  function EntrySize(e: Entry): nat { PrefixSize(e.name) + BodySize(|e.data|) }

  function EntryHeader(e: Entry): Header { Header(e.mode, e.uid, e.gid, |e.data|, |e.name| + 1) }

  function EntryPrefix(e: Entry): Prefix { Prefix(EntryHeader(e), e.name, PrefixSize(e.name)) }

  function EntryOf(p: Prefix, s: string): Entry
    requires p.size + p.header.fileSize <= |s|
  {
    Entry(p.header.mode, p.header.uid, p.header.gid, p.name, s[p.size..p.size + p.header.fileSize])
  }

  function Prepend(e: Entry, r: Option<seq<Entry>>): Option<seq<Entry>> {
    if r.None? then None else Some([e] + r.value)
  }

  /** The entries of an archive that is complete and ends with its trailer. */
  function Parse(front: Front, s: string): Option<seq<Entry>>
    decreases |s|
  {
    var p := front(s);
    if p == None then None
    else
      var size := p.value.size + BodySize(p.value.header.fileSize);
      if p.value.name == TrailerName then
        if p.value.header.fileSize == 0 && |s| == p.value.size then Some([]) else None
      else if |s| < size || size == 0 then None
      else Prepend(EntryOf(p.value, s), Parse(front, s[size..]))
  }

  // ----- What the bytes of an archive look like

  /** s starts with the entry e. */
  predicate Encodes(front: Front, s: string, e: Entry) {
    && e.name != TrailerName && |s| >= EntrySize(e)
    && front(s) == Some(EntryPrefix(e))
    && s[PrefixSize(e.name)..PrefixSize(e.name) + |e.data|] == e.data
  }

  /** s is the trailer and nothing more. */
  predicate IsTrailer(front: Front, s: string) {
    && front(s).Some? && front(s).value.name == TrailerName
    && front(s).value.header.fileSize == 0 && |s| == front(s).value.size
  }

  /** s is a sequence of encoded entries, one behind the other, and a trailer. */
  predicate IsArchive(front: Front, s: string, entries: seq<Entry>)
    decreases |entries|
  {
    if entries == [] then IsTrailer(front, s)
    else Encodes(front, s, entries[0]) && IsArchive(front, s[EntrySize(entries[0])..], entries[1..])
  }

  /** A prefix is as long as its name makes it, and announces at most a 32-bit size. */
  ghost predicate Sized(front: Front) {
    forall s {:trigger front(s)} :: front(s).Some? ==>
      var p := front(s).value;
      p.size == PrefixSize(p.name) && p.header.nameSize == |p.name| + 1 && p.header.fileSize <= Uint32Max
  }

  lemma {:induction false} EncodedIsParsed(front: Front, s: string, e: Entry)
    requires Encodes(front, s, e)
    ensures Parse(front, s) == Prepend(e, Parse(front, s[EntrySize(e)..]))
  {
  }

  lemma {:induction false} ParsedIsEncoded(front: Front, s: string)
    requires Sized(front) && Parse(front, s).Some? && Parse(front, s).value != []
    ensures var e := Parse(front, s).value[0];
            Encodes(front, s, e) && Parse(front, s[EntrySize(e)..]) == Some(Parse(front, s).value[1..])
  {
    var p := front(s).value;
    var e := EntryOf(p, s);
    assert EntryPrefix(e) == p;
    var rest := Parse(front, s[EntrySize(e)..]);
    assert Parse(front, s) == Prepend(e, rest);
    HeadAndTail(e, rest);
  }

  lemma {:induction false} HeadAndTail(e: Entry, r: Option<seq<Entry>>)
    requires r.Some?
    ensures Prepend(e, r).value[0] == e && Prepend(e, r).value[1..] == r.value
  {
  }

  /** A byte string parses to these entries exactly when it encodes them. */
  lemma {:induction false} ParseIffArchive(front: Front, s: string, entries: seq<Entry>)
    requires Sized(front)
    ensures Parse(front, s) == Some(entries) <==> IsArchive(front, s, entries)
    decreases |entries|
  {
    if entries != [] {
      var e, rest := entries[0], entries[1..];
      if Encodes(front, s, e) {
        EncodedIsParsed(front, s, e);
        ParseIffArchive(front, s[EntrySize(e)..], rest);
        assert [e] + rest == entries;
      }
      if Parse(front, s) == Some(entries) {
        ParsedIsEncoded(front, s);
      }
    }
  }

  lemma {:induction false} EntrySizeAligned(e: Entry)
    ensures EntrySize(e) % 4 == 0 && EntrySize(e) > HeaderSize
  {
  }

  // ----- Writing

  /** An entry with the modification time that only the writer handles. */
  datatype Item = Item(entry: Entry, mtime: nat)

  /** How the writer lays out the item at a position of the archive. */
  type Layout = (Item, nat) -> string

  function Records(layout: Layout, items: seq<Item>): string {
    if items == [] then ""
    else Records(layout, items[..|items| - 1]) + layout(items[|items| - 1], |items| - 1)
  }

  function Entries(items: seq<Item>): (es: seq<Entry>)
    ensures |es| == |items|
  {
    seq(|items|, i requires 0 <= i < |items| => items[i].entry)
  }

  /** The numbers fit their fields and the name is one that C can hold. */
  predicate Writable(item: Item) {
    var e := item.entry;
    && e.mode <= Uint32Max && e.uid <= Uint32Max && e.gid <= Uint32Max && item.mtime <= Uint32Max
    && |e.data| <= Uint32Max && |e.name| <= NameLimit && NUL !in e.name
  }

  /** t is the item e as a reader sees it, whatever follows. */
  ghost predicate ReadsBack(front: Front, t: string, e: Entry) {
    && |t| == EntrySize(e)
    && t[PrefixSize(e.name)..PrefixSize(e.name) + |e.data|] == e.data
    && forall rest {:trigger t + rest} :: front(t + rest) == Some(EntryPrefix(e))
  }

  /** What is laid out is read back. */
  ghost predicate Faithful(front: Front, layout: Layout) {
    forall item, index: nat {:trigger layout(item, index)} ::
      Writable(item) && index < Uint32Max ==> ReadsBack(front, layout(item, index), item.entry)
  }

  function PrependAll(es: seq<Entry>, r: Option<seq<Entry>>): Option<seq<Entry>> {
    if r.None? then None else Some(es + r.value)
  }

  lemma {:induction false} RecordParses(front: Front, t: string, e: Entry, rest: string)
    requires ReadsBack(front, t, e) && e.name != TrailerName
    ensures Parse(front, t + rest) == Prepend(e, Parse(front, rest))
  {
    var s := t + rest;
    assert s[PrefixSize(e.name)..PrefixSize(e.name) + |e.data|] == e.data;
    EncodedIsParsed(front, s, e);
    assert s[EntrySize(e)..] == rest;
  }

  lemma {:induction false} RecordsParse(front: Front, layout: Layout, items: seq<Item>, rest: string)
    requires Faithful(front, layout) && |items| <= Uint32Max
    requires forall i :: 0 <= i < |items| ==> Writable(items[i]) && items[i].entry.name != TrailerName
    ensures Parse(front, Records(layout, items) + rest) == PrependAll(Entries(items), Parse(front, rest))
    decreases |items|
  {
    if items == [] {
      assert Records(layout, items) + rest == rest;
      PrependNothing(Parse(front, rest));
    } else {
      var k := |items| - 1;
      var t := layout(items[k], k);
      RecordParses(front, t, items[k].entry, rest);
      RecordsParse(front, layout, items[..k], t + rest);
      PrependTwice(Entries(items[..k]), items[k].entry, Parse(front, rest));
      LastRecord(layout, items, rest);
    }
  }

  lemma {:induction false} LastRecord(layout: Layout, items: seq<Item>, rest: string)
    requires items != []
    ensures var k := |items| - 1;
            Records(layout, items) + rest == Records(layout, items[..k]) + (layout(items[k], k) + rest)
            && Entries(items) == Entries(items[..k]) + [items[k].entry]
  {
  }

  lemma {:induction false} PrependNothing(r: Option<seq<Entry>>)
    ensures PrependAll([], r) == r
  {
    if r.Some? {
      assert [] + r.value == r.value;
    }
  }

  lemma {:induction false} PrependTwice(es: seq<Entry>, e: Entry, r: Option<seq<Entry>>)
    ensures PrependAll(es, Prepend(e, r)) == PrependAll(es + [e], r)
  {
    if r.Some? {
      assert es + ([e] + r.value) == es + [e] + r.value;
    }
  }

  predicate Aligned(n: nat) { n % 4 == 0 }

  lemma {:induction false} RecordAligned(front: Front, t: string, e: Entry)
    requires ReadsBack(front, t, e)
    ensures Aligned(|t|)
  {
    EntrySizeAligned(e);
  }

  lemma {:induction false} SumAligned(m: nat, n: nat)
    requires Aligned(m) && Aligned(n)
    ensures Aligned(m + n)
  {
  }

  lemma {:induction false} RecordsAligned(layout: Layout, items: seq<Item>, k: nat)
    requires k <= |items| && forall i :: 0 <= i < |items| ==> Aligned(|layout(items[i], i)|)
    ensures Aligned(|Records(layout, items[..k])|) && Records(layout, items[..k]) <= Records(layout, items)
    decreases |items|
  {
    if items == [] {
      assert items[..k] == items;
    } else {
      var last := |items| - 1;
      if k == |items| {
        assert items[..k] == items;
        RecordsAligned(layout, items[..last], last);
        assert items[..last][..last] == items[..last];
        SumAligned(|Records(layout, items[..last])|, |layout(items[last], last)|);
      } else {
        RecordsAligned(layout, items[..last], k);
        assert items[..last][..k] == items[..k];
      }
    }
  }

  /** The header of the item at position k, or of the trailer behind them all,
      starts at an offset that is a multiple of four. */
  lemma {:induction false} HeadersAligned(front: Front, layout: Layout, items: seq<Item>, k: nat)
    requires Faithful(front, layout) && k <= |items| <= Uint32Max
    requires forall i :: 0 <= i < |items| ==> Writable(items[i])
    ensures Aligned(|Records(layout, items[..k])|) && Records(layout, items[..k]) <= Records(layout, items)
  {
    forall i | 0 <= i < |items| ensures Aligned(|layout(items[i], i)|) {
      RecordAligned(front, layout(items[i], i), items[i].entry);
    }
    RecordsAligned(layout, items, k);
  }

  /** The codec round trip. */
  lemma {:induction false} ArchiveRoundTrip(front: Front, layout: Layout, items: seq<Item>, trailer: string)
    requires Faithful(front, layout) && IsTrailer(front, trailer) && |items| <= Uint32Max
    requires forall i :: 0 <= i < |items| ==> Writable(items[i]) && items[i].entry.name != TrailerName
    ensures Parse(front, Records(layout, items) + trailer) == Some(Entries(items))
  {
    RecordsParse(front, layout, items, trailer);
    assert Entries(items) + [] == Entries(items);
  }

  lemma {:induction false} TrailerRecordRefused(front: Front, t: string, e: Entry, behind: string)
    requires ReadsBack(front, t, e) && e.name == TrailerName && |behind| > 0
    ensures Parse(front, t + behind) == None
  {
    assert front(t + behind) == Some(EntryPrefix(e));
  }

  /** An entry that is called like the trailer ends the archive before its end. */
  lemma {:induction false} TrailerNameRefused(front: Front, layout: Layout, items: seq<Item>, rest: string, k: nat)
    requires Faithful(front, layout) && |rest| > 0 && |items| <= Uint32Max
    requires forall i :: 0 <= i < |items| ==> Writable(items[i])
    requires k < |items| && items[k].entry.name == TrailerName
    requires forall i :: 0 <= i < k ==> items[i].entry.name != TrailerName
    ensures Parse(front, Records(layout, items) + rest) == None
    decreases |items|
  {
    var last := |items| - 1;
    var t := layout(items[last], last);
    assert Records(layout, items) + rest == Records(layout, items[..last]) + (t + rest);
    if k == last {
      TrailerRecordRefused(front, t, items[k].entry, rest);
      RecordsParse(front, layout, items[..k], t + rest);
    } else {
      TrailerNameRefused(front, layout, items[..last], t + rest, k);
    }
  }
}
