/**
  The syntax of a newc prefix as src/cpio.c writes and reads it: the magic number,
  thirteen eight-digit hexadecimal fields and a NUL-terminated name, padded to
  four bytes.
*/
module Newc {
  import opened CStrings
  import opened Archive

  const Magic := "070701"

  // ----- Hexadecimal fields

  /** The low n hexadecimal digits of v, which for a 32-bit v and n = 8 is %08x. */
  function HexDigits(v: nat, n: nat): (s: string)
    ensures |s| == n
    decreases n, v
  {
    if n == 0 then "" else HexDigits(v / 16, n - 1) + [Digit(v % 16)]
  }

  /** The bytes before the first NUL: what C takes a buffer for. */
  function CString(buffer: string): string { buffer[..IndexOf(buffer, NUL)] }

  function ParseHexField(field: string): Option<nat> {
    var s := CString(field);
    var n := Strtoul(s, true);
    if n.erange || n.end != |s| || n.value > Uint32Max then None else Some(n.value)
  }

  /** What C takes a buffer for ends at its first NUL. */
  lemma {:induction false} CStringEnds(text: string, rest: string)
    requires '\0' !in text
    ensures CString(text) == text && CString(text + ['\0'] + rest) == text
  {
    IndexOfFirst(text, '\0', rest);
  }

  /** A field is a number of 32 bits exactly if the text before its first NUL is spelled
      as one, with optional white space, sign and prefix, or is empty. */
  lemma {:induction false} HexFieldIff(field: string, n: nat)
    ensures ParseHexField(field) == Some(n)
            <==> || (CString(field) == "" && n == 0)
                 || (n < 0x1_0000_0000 && exists p: Spelling ::
                       p.Valid(true) && p.Text() == CString(field) && p.Fits(true) && p.Meaning(true) == n)
  {
    StrtoulIff(CString(field), true, n);
    if CString(field) == "" {
      assert DigitCount("", true) == 0;
    }
  }

  function Pow16(n: nat): nat
    decreases n
  {
    if n == 0 then 1 else 16 * Pow16(n - 1)
  }

  lemma {:induction false} HexDigitsAreDigits(v: nat, n: nat)
    ensures forall i :: 0 <= i < n ==> IsDigit(HexDigits(v, n)[i], true) && HexDigits(v, n)[i] != NUL
    decreases n
  {
    if n > 0 {
      HexDigitsAreDigits(v / 16, n - 1);
      assert IsDigit(Digit(v % 16), true);
    }
  }

  lemma {:induction false} ValueOfHexDigits(v: nat, n: nat)
    requires v < Pow16(n)
    ensures Value(HexDigits(v, n), true) == v
    decreases n
  {
    if n > 0 {
      ValueOfHexDigits(v / 16, n - 1);
      assert HexDigits(v, n)[..n - 1] == HexDigits(v / 16, n - 1);
    }
  }

  /** A printed field is read back. (Reading accepts more than is ever printed:
      leading blanks, a sign, 0x, and a NUL before the eighth character.) */
  lemma {:induction false} HexFieldRoundTrip(v: nat)
    requires v <= Uint32Max
    ensures ParseHexField(HexDigits(v, 8)) == Some(v)
  {
    var s := HexDigits(v, 8);
    HexDigitsAreDigits(v, 8);
    assert Pow16(8) == 0x1_0000_0000;
    ValueOfHexDigits(v, 8);
    assert NUL !in s;
    assert CString(s) == s;
    StrtoulOfDigits(s, true);
  }

  // ----- Headers

  function FieldsText(fields: seq<nat>): (s: string)
    ensures |s| == 8 * |fields|
  {
    if fields == [] then "" else HexDigits(fields[0], 8) + FieldsText(fields[1..])
  }

  function HeaderFields(inode: nat, h: Header, mtime: nat): seq<nat> {
    [inode, h.mode, h.uid, h.gid, 1, mtime, h.fileSize, 0, 0, 0, 0, h.nameSize, 0]
  }

  function HeaderText(inode: nat, h: Header, mtime: nat): (s: string)
    ensures |s| == HeaderSize
  {
    Magic + FieldsText(HeaderFields(inode, h, mtime))
  }

  /** What is printed where: the layout of the SVR4 newc format. */
  lemma {:induction false} HeaderBytes(inode: nat, h: Header, mtime: nat)
    ensures var s := HeaderText(inode, h, mtime);
            && |s| == 110 && s[..6] == "070701"
            && s[6..14] == HexDigits(inode, 8) && s[14..22] == HexDigits(h.mode, 8)
            && s[22..30] == HexDigits(h.uid, 8) && s[30..38] == HexDigits(h.gid, 8)
            && s[38..46] == HexDigits(1, 8) && s[46..54] == HexDigits(mtime, 8)
            && s[54..62] == HexDigits(h.fileSize, 8)
            && s[62..70] == s[70..78] == s[78..86] == s[86..94] == HexDigits(0, 8)
            && s[94..102] == HexDigits(h.nameSize, 8) && s[102..110] == HexDigits(0, 8)
  {
    var fields := HeaderFields(inode, h, mtime);
    forall i | 0 <= i < 13 ensures FieldPlace(fields, i) {
      PlaceOfField(fields, i, 8 * i);
    }
    var s := HeaderText(inode, h, mtime);
    assert s == Magic + FieldsText(fields);
    FirstPlaces(fields, s);
    LastPlaces(fields, s);
  }

  /** Field i is printed at its place. */
  predicate FieldPlace(fields: seq<nat>, i: nat)
    requires i < |fields|
  {
    (Magic + FieldsText(fields))[6 + 8 * i..14 + 8 * i] == HexDigits(fields[i], 8)
  }

  lemma {:induction false} PlaceOfField(fields: seq<nat>, i: nat, from: nat)
    requires i < |fields| && from == 8 * i
    ensures FieldPlace(fields, i)
  {
    FieldOfText(fields, i, from);
    SliceBehind(Magic, FieldsText(fields), from, from + 8);
  }

  lemma {:induction false} FirstPlaces(fields: seq<nat>, s: string)
    requires |fields| == 13 && s == Magic + FieldsText(fields) && forall i :: 0 <= i < 13 ==> FieldPlace(fields, i)
    ensures s[6..14] == HexDigits(fields[0], 8) && s[14..22] == HexDigits(fields[1], 8)
    ensures s[22..30] == HexDigits(fields[2], 8) && s[30..38] == HexDigits(fields[3], 8)
    ensures s[38..46] == HexDigits(fields[4], 8) && s[46..54] == HexDigits(fields[5], 8)
    ensures s[54..62] == HexDigits(fields[6], 8)
  {
    assert FieldPlace(fields, 0) && FieldPlace(fields, 1) && FieldPlace(fields, 2) && FieldPlace(fields, 3);
    assert FieldPlace(fields, 4) && FieldPlace(fields, 5) && FieldPlace(fields, 6);
  }

  lemma {:induction false} LastPlaces(fields: seq<nat>, s: string)
    requires |fields| == 13 && s == Magic + FieldsText(fields) && forall i :: 0 <= i < 13 ==> FieldPlace(fields, i)
    ensures s[62..70] == HexDigits(fields[7], 8) && s[70..78] == HexDigits(fields[8], 8)
    ensures s[78..86] == HexDigits(fields[9], 8) && s[86..94] == HexDigits(fields[10], 8)
    ensures s[94..102] == HexDigits(fields[11], 8) && s[102..110] == HexDigits(fields[12], 8)
  {
    assert FieldPlace(fields, 7) && FieldPlace(fields, 8) && FieldPlace(fields, 9) && FieldPlace(fields, 10);
    assert FieldPlace(fields, 11) && FieldPlace(fields, 12);
  }

  /** The mode of a regular file with 0644, as it is printed. */
  lemma {:induction false} PrintedMode()
    ensures HexDigits(0x81a4, 8) == "000081a4"
  {
    assert HexDigits(0x81a4 / 0x10000, 4) == "0000";
  }

  /** Field i of a raw header. */
  function FieldAt(raw: string, i: nat): Option<nat>
    requires |raw| >= HeaderSize && i < 13
  {
    ParseHexField(raw[6 + 8 * i..6 + 8 * i + 8])
  }

  /** The kept fields, when all thirteen parse and the name size is in range. */
  function HeaderFrom(field: nat -> Option<nat>): Option<Header> {
    if !(forall i: nat :: i < 13 ==> field(i).Some?) then None
    else
      var nameSize := field(11).value;
      if nameSize == 0 || nameSize > NameLimit + 1 then None
      else Some(Header(field(1).value, field(2).value, field(3).value, field(6).value, nameSize))
  }

  function FieldsOf(raw: string): nat -> Option<nat>
    requires |raw| >= HeaderSize
  {
    (i: nat) => if i < 13 then FieldAt(raw, i) else None
  }

  /** read_header of the bytes at the front of s. */
  function HeaderOf(s: string): Option<Header> {
    if |s| < HeaderSize || s[..6] != Magic then None else HeaderFrom(FieldsOf(s))
  }

  lemma {:induction false} FieldOfText(fields: seq<nat>, i: nat, from: nat)
    requires i < |fields| && from == 8 * i
    ensures FieldsText(fields)[from..from + 8] == HexDigits(fields[i], 8)
  {
    if i > 0 {
      FieldOfText(fields[1..], i - 1, from - 8);
      SliceBehind(HexDigits(fields[0], 8), FieldsText(fields[1..]), from - 8, from);
    }
  }

  lemma {:induction false} SliceBehind(a: string, b: string, from: nat, to: nat)
    requires from <= to <= |b|
    ensures (a + b)[|a| + from..|a| + to] == b[from..to]
  {
  }

  predicate HeaderInRange(h: Header) {
    h.mode <= Uint32Max && h.uid <= Uint32Max && h.gid <= Uint32Max && h.fileSize <= Uint32Max
    && 0 < h.nameSize <= NameLimit + 1
  }

  lemma {:induction false} SliceInside(a: string, b: string, c: string, from: nat, to: nat)
    requires from <= to <= |b|
    ensures (a + b + c)[|a| + from..|a| + to] == b[from..to]
  {
  }

  lemma {:induction false} Regroup(a: string, b: string, c: string)
    ensures a + b + c == a + (b + c)
  {
  }

  lemma {:induction false} FieldRoundTrip(fields: seq<nat>, rest: string, i: nat)
    requires i < |fields| == 13 && fields[i] <= Uint32Max
    ensures FieldAt(Magic + FieldsText(fields) + rest, i) == Some(fields[i])
  {
    var from := 8 * i;
    FieldOfText(fields, i, from);
    SliceInside(Magic, FieldsText(fields), rest, from, from + 8);
    FieldAtSlice(Magic + FieldsText(fields) + rest, i, |Magic| + from, |Magic| + (from + 8), fields[i]);
  }

  lemma {:induction false} FieldAtSlice(raw: string, i: nat, from: nat, to: nat, v: nat)
    requires |raw| >= HeaderSize && i < 13 && v <= Uint32Max
    requires from == 6 + 8 * i && to == from + 8 && raw[from..to] == HexDigits(v, 8)
    ensures FieldAt(raw, i) == Some(v)
  {
    HexFieldRoundTrip(v);
  }

  lemma {:induction false} HeaderFieldRoundTrip(inode: nat, h: Header, mtime: nat, rest: string, i: nat)
    requires inode <= Uint32Max && mtime <= Uint32Max && HeaderInRange(h) && i < 13
    ensures FieldAt(HeaderText(inode, h, mtime) + rest, i) == Some(HeaderFields(inode, h, mtime)[i])
  {
    FieldRoundTrip(HeaderFields(inode, h, mtime), rest, i);
  }

  lemma {:induction false} HeaderFromFields(field: nat -> Option<nat>, fields: seq<nat>)
    requires |fields| == 13 && forall i {:trigger field(i)} :: 0 <= i < 13 ==> field(i) == Some(fields[i])
    requires 0 < fields[11] <= NameLimit + 1
    ensures HeaderFrom(field) == Some(Header(fields[1], fields[2], fields[3], fields[6], fields[11]))
  {
  }

  lemma {:induction false} HeaderRoundTrip(inode: nat, h: Header, mtime: nat, rest: string)
    requires inode <= Uint32Max && mtime <= Uint32Max && HeaderInRange(h)
    ensures HeaderOf(HeaderText(inode, h, mtime) + rest) == Some(h)
  {
    var s, fields := HeaderText(inode, h, mtime) + rest, HeaderFields(inode, h, mtime);
    assert s[..6] == Magic;
    var field := FieldsOf(s);
    forall i {:trigger field(i)} | 0 <= i < 13 ensures field(i) == Some(fields[i]) {
      HeaderFieldRoundTrip(inode, h, mtime, rest, i);
    }
    HeaderFromFields(field, fields);
  }

  // ----- Prefixes

  /** The front of s up to the data of an entry: what both the verifier and the
      extractor read before they look at the name. */
  function PrefixOf(s: string): (p: Option<Prefix>)
    ensures p.Some? ==> p.value.size <= |s|
  {
    var h := HeaderOf(s);
    if h == None then None else NamedPrefix(h.value, s)
  }

  function NamedPrefix(h: Header, s: string): (p: Option<Prefix>)
    requires h.nameSize > 0
    ensures p.Some? ==> p.value.size <= |s|
  {
    var end := HeaderSize + h.nameSize;
    var size := end + Padding(end);
    if |s| < size || s[end - 1] != NUL || NUL in s[HeaderSize..end - 1] then None
    else Some(Prefix(h, s[HeaderSize..end - 1], size))
  }

  function PrefixText(inode: nat, h: Header, mtime: nat, name: string): string {
    HeaderText(inode, h, mtime) + NameText(name)
  }

  function NameText(name: string): string {
    name + [NUL] + Zeros(Padding(HeaderSize + |name| + 1))
  }

  /** What is written for the item at the given position. */
  function Record(item: Item, index: nat): string {
    var e := item.entry;
    PrefixText(index + 1, EntryHeader(e), item.mtime, e.name) + DataText(e.data)
  }

  function DataText(data: string): string { data + Zeros(Padding(|data|)) }

  function TrailerText(): string {
    PrefixText(0, Header(0, 0, 0, 0, |TrailerName| + 1), 0, TrailerName)
  }

  lemma {:induction false} PrefixIsSized(s: string)
    requires PrefixOf(s).Some?
    ensures var p := PrefixOf(s).value;
            p.size == PrefixSize(p.name) && p.header.nameSize == |p.name| + 1 && p.header.fileSize <= Uint32Max
  {
    assert FieldsOf(s)(6) == FieldAt(s, 6);
  }

  lemma {:induction false} PrefixesAreSized()
    ensures Sized(PrefixOf)
  {
    forall s | PrefixOf(s).Some?
      ensures var p := PrefixOf(s).value;
              p.size == PrefixSize(p.name) && p.header.nameSize == |p.name| + 1 && p.header.fileSize <= Uint32Max {
      PrefixIsSized(s);
    }
  }

  lemma {:induction false} NameRoundTrip(h: Header, head: string, name: string, rest: string)
    requires |head| == HeaderSize && h.nameSize == |name| + 1 && NUL !in name
    ensures NamedPrefix(h, head + NameText(name) + rest) == Some(Prefix(h, name, PrefixSize(name)))
    ensures |head + NameText(name)| == PrefixSize(name)
  {
    var s := head + NameText(name) + rest;
    assert s[HeaderSize..HeaderSize + |name|] == name;
  }

  lemma {:induction false} PrefixRoundTrip(inode: nat, h: Header, mtime: nat, name: string, rest: string)
    requires inode <= Uint32Max && mtime <= Uint32Max && HeaderInRange(h)
    requires h.nameSize == |name| + 1 && NUL !in name
    ensures PrefixOf(PrefixText(inode, h, mtime, name) + rest) == Some(Prefix(h, name, PrefixSize(name)))
    ensures |PrefixText(inode, h, mtime, name)| == PrefixSize(name)
  {
    var head := HeaderText(inode, h, mtime);
    Regroup(head, NameText(name), rest);
    HeaderRoundTrip(inode, h, mtime, NameText(name) + rest);
    NameRoundTrip(h, head, name, rest);
  }

  lemma {:induction false} TextReadsBack(item: Item, inode: nat, h: Header, t: string)
    requires Writable(item) && inode <= Uint32Max && h == EntryHeader(item.entry)
    requires t == PrefixText(inode, h, item.mtime, item.entry.name) + DataText(item.entry.data)
    ensures ReadsBack(PrefixOf, t, item.entry)
  {
    var e := item.entry;
    var p, z := PrefixText(inode, h, item.mtime, e.name), Zeros(Padding(|e.data|));
    EntryInRange(item);
    forall rest {:trigger t + rest} ensures PrefixOf(t + rest) == Some(EntryPrefix(e)) {
      PrefixStarts(inode, h, item.mtime, e.name, DataText(e.data), rest);
    }
    PrefixRoundTrip(inode, h, item.mtime, e.name, "");
    SliceInside(p, e.data, z, 0, |e.data|);
    Regroup(p, e.data, z);
  }

  lemma {:induction false} RecordReadsBack(item: Item, index: nat)
    requires Writable(item) && index < Uint32Max
    ensures ReadsBack(PrefixOf, Record(item, index), item.entry)
  {
    TextReadsBack(item, index + 1, EntryHeader(item.entry), Record(item, index));
  }

  lemma {:induction false} EntryInRange(item: Item)
    requires Writable(item)
    ensures HeaderInRange(EntryHeader(item.entry)) && EntryHeader(item.entry).nameSize == |item.entry.name| + 1
  {
  }

  lemma {:induction false} PrefixStarts(inode: nat, h: Header, mtime: nat, name: string, text: string, rest: string)
    requires inode <= Uint32Max && mtime <= Uint32Max && HeaderInRange(h)
    requires h.nameSize == |name| + 1 && NUL !in name
    ensures PrefixOf(PrefixText(inode, h, mtime, name) + text + rest) == Some(Prefix(h, name, PrefixSize(name)))
  {
    Regroup(PrefixText(inode, h, mtime, name), text, rest);
    PrefixRoundTrip(inode, h, mtime, name, text + rest);
  }

  /** What the writer prints is what the reader reads. */
  lemma {:induction false} RecordsAreFaithful()
    ensures Faithful(PrefixOf, Record)
  {
    forall item, index: nat | Writable(item) && index < Uint32Max
      ensures ReadsBack(PrefixOf, Record(item, index), item.entry) {
      RecordReadsBack(item, index);
    }
  }

  lemma {:induction false} TrailerIsTrailer()
    ensures IsTrailer(PrefixOf, TrailerText()) && |TrailerText()| > 0
  {
    var h := Header(0, 0, 0, 0, |TrailerName| + 1);
    assert |TrailerName| == 10 && NUL !in TrailerName;
    PrefixRoundTrip(0, h, 0, TrailerName, "");
    assert TrailerText() + "" == TrailerText();
  }

  function ArchiveText(items: seq<Item>): string { Records(Record, items) + TrailerText() }

  /** Parsing what write_archive prints gives the entries back, exactly when none
      of them is called like the trailer. */
  lemma {:induction false} NewcRoundTrip(items: seq<Item>)
    requires forall i :: 0 <= i < |items| ==> Writable(items[i])
    requires |items| <= Uint32Max
    ensures Parse(PrefixOf, ArchiveText(items))
            == if exists i :: 0 <= i < |items| && items[i].entry.name == TrailerName then None else Some(Entries(items))
  {
    RecordsAreFaithful();
    TrailerIsTrailer();
    if exists i :: 0 <= i < |items| && items[i].entry.name == TrailerName {
      var k := FirstTrailer(items);
      TrailerNameRefused(PrefixOf, Record, items, TrailerText(), k);
    } else {
      ArchiveRoundTrip(PrefixOf, Record, items, TrailerText());
    }
  }

  lemma {:induction false} FirstTrailer(items: seq<Item>) returns (k: nat)
    requires exists i :: 0 <= i < |items| && items[i].entry.name == TrailerName
    ensures k < |items| && items[k].entry.name == TrailerName
    ensures forall i :: 0 <= i < k ==> items[i].entry.name != TrailerName
  {
    k := 0;
    while items[k].entry.name != TrailerName
      invariant k < |items| && forall i :: 0 <= i < k ==> items[i].entry.name != TrailerName
      decreases |items| - k
    {
      k := k + 1;
    }
  }
}
