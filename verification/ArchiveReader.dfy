/**
  Reading an archive with a file cursor, as both loops of src/cpio.c do it: exact
  reads, headers, padding and skipped data. `front` is the prefix syntax the
  cursor reads by; it is Newc.PrefixOf, seen from outside as any function.
*/
module ArchiveReader {
  import opened CStrings
  import opened Archive
  import Newc

  class Reader {
    const data: string
    var pos: nat
    ghost const front: Front

    ghost predicate Valid()
      reads this
    {
      && pos <= |data| && Sized(front)
      && forall s {:trigger Newc.PrefixOf(s)} :: front(s) == Newc.PrefixOf(s)
    }

    /** The bytes behind the cursor. */
    function Rest(): string
      requires pos <= |data|
      reads this
    {
      data[pos..]
    }

    constructor (data: string)
      ensures Valid() && this.data == data && pos == 0 && front == Newc.PrefixOf
    {
      this.data := data;
      this.front := Newc.PrefixOf;
      pos := 0;
      Newc.PrefixesAreSized();
    }

    /** fread that fails on a short read. */
    method ReadExact(size: nat) returns (r: Option<string>)
      requires Valid()
      modifies this
      ensures Valid()
      ensures r.Some? <==> old(pos) + size <= |data|
      ensures r.Some? ==> r.value == data[old(pos)..old(pos) + size] && pos == old(pos) + size
    {
      if pos + size > |data| {
        pos := |data|;
        return None;
      }
      r := Some(data[pos..pos + size]);
      pos := pos + size;
    }

    method ReadPadding(size: nat) returns (ok: bool)
      requires Valid()
      modifies this
      ensures Valid()
      ensures ok <==> old(pos) + Padding(size) <= |data|
      ensures ok ==> pos == old(pos) + Padding(size)
    {
      var count := Padding(size);
      if count == 0 {
        return true;
      }
      var ignored := ReadExact(count);
      ok := ignored.Some?;
    }

    /** skip_data: reads over the data in pieces of at most 64 KiB, then over its padding. */
    method SkipData(size: nat) returns (ok: bool)
      requires Valid()
      modifies this
      ensures Valid()
      ensures ok <==> old(pos) + BodySize(size) <= |data|
      ensures ok ==> pos == old(pos) + BodySize(size)
    {
      var remaining := size;
      while remaining > 0
        invariant Valid() && 0 <= remaining <= size && pos == old(pos) + size - remaining
      {
        var count := if remaining > 65536 then 65536 else remaining;
        var piece := ReadExact(count);
        if piece.None? {
          return false;
        }
        remaining := remaining - count;
      }
      ok := ReadPadding(size);
    }

    /** Data that is kept: the whole of it, and then its padding is read over. */
    method ReadData(size: nat) returns (r: Option<string>)
      requires Valid()
      modifies this
      ensures Valid()
      ensures r.Some? <==> old(pos) + BodySize(size) <= |data|
      ensures r.Some? ==> r.value == data[old(pos)..old(pos) + size] && pos == old(pos) + BodySize(size)
    {
      r := ReadExact(size);
      if r.Some? {
        var ok := ReadPadding(size);
        if !ok {
          r := None;
        }
      }
    }

    /** read_header */
    method ReadHeader() returns (r: Option<Header>)
      requires Valid()
      modifies this
      ensures Valid()
      ensures r == Newc.HeaderOf(data[old(pos)..])
      ensures r.Some? ==> pos == old(pos) + HeaderSize
    {
      ghost var s := Rest();
      var raw := ReadExact(HeaderSize);
      if raw.None? {
        return None;
      }
      r := ParseHeader(raw.value);
      assert s[..HeaderSize] == raw.value;
      HeaderOfHead(s);
    }

    /** The header, the name with its NUL, and the padding behind it. */
    method ReadPrefix() returns (r: Option<Prefix>)
      requires Valid()
      modifies this
      ensures Valid()
      ensures r == front(data[old(pos)..])
      ensures r.Some? ==> pos == old(pos) + r.value.size
    {
      ghost var s := Rest();
      var header := ReadHeader();
      if header.None? {
        assert Newc.PrefixOf(s) == None;
        return None;
      }
      r := ReadName(header.value, s);
      assert r == Newc.PrefixOf(s);
    }

    method ReadName(h: Header, ghost s: string) returns (r: Option<Prefix>)
      requires Valid() && pos >= HeaderSize && s == data[pos - HeaderSize..] && h.nameSize > 0
      modifies this
      ensures Valid()
      ensures r == Newc.NamedPrefix(h, s)
      ensures r.Some? ==> pos == old(pos) - HeaderSize + r.value.size
    {
      var name := ReadExact(h.nameSize);
      if name.None? {
        return None;
      }
      var end := HeaderSize + h.nameSize;
      assert s[HeaderSize..end] == name.value;
      NameInside(s, h);
      if name.value[|name.value| - 1] != NUL || NUL in name.value[..|name.value| - 1] {
        return None;
      }
      var ok := ReadPadding(end);
      if ok {
        r := Some(Prefix(h, name.value[..|name.value| - 1], end + Padding(end)));
      } else {
        r := None;
      }
    }
  }

  /** The magic number and thirteen fields. */
  method ParseHeader(raw: string) returns (r: Option<Header>)
    requires |raw| == HeaderSize
    ensures r == Newc.HeaderOf(raw)
  {
    if raw[..6] != Newc.Magic {
      return None;
    }
    r := ParseFields(Newc.FieldsOf(raw));
  }

  /** Parses the fields in turn, gives up at the first that does not parse, and
      keeps five of them. */
  method ParseFields(field: nat -> Option<nat>) returns (r: Option<Header>)
    ensures r == Newc.HeaderFrom(field)
  {
    var fields: seq<nat> := [];
    while |fields| < 13
      invariant |fields| <= 13
      invariant forall i: nat :: i < |fields| ==> field(i) == Some(fields[i])
    {
      var next := field(|fields|);
      if next.None? {
        return None;
      }
      fields := fields + [next.value];
    }
    if fields[11] == 0 || fields[11] > NameLimit + 1 {
      return None;
    }
    r := Some(Header(fields[1], fields[2], fields[3], fields[6], fields[11]));
  }

  /** A header is read from its own bytes. */
  lemma {:induction false} HeaderOfHead(s: string)
    requires |s| >= HeaderSize
    ensures Newc.HeaderOf(s) == Newc.HeaderOf(s[..HeaderSize])
  {
    var head := s[..HeaderSize];
    assert head[..6] == s[..6];
    forall i: nat ensures Newc.FieldsOf(head)(i) == Newc.FieldsOf(s)(i) {
      if i < 13 {
        assert head[6 + 8 * i..6 + 8 * i + 8] == s[6 + 8 * i..6 + 8 * i + 8];
      }
    }
    SameFields(Newc.FieldsOf(head), Newc.FieldsOf(s));
  }

  lemma {:induction false} SameFields(f: nat -> Option<nat>, g: nat -> Option<nat>)
    requires forall i: nat :: f(i) == g(i)
    ensures Newc.HeaderFrom(f) == Newc.HeaderFrom(g)
  {
  }

  lemma {:induction false} NameInside(s: string, h: Header)
    requires h.nameSize > 0 && |s| >= HeaderSize + h.nameSize
    ensures var end := HeaderSize + h.nameSize;
            s[HeaderSize..end][h.nameSize - 1] == s[end - 1]
            && s[HeaderSize..end][..h.nameSize - 1] == s[HeaderSize..end - 1]
  {
  }
}
