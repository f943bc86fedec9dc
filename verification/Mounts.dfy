/**
  The list of mounts below the old root in src/runtime.c: mount points are decoded
  in place, picked by their path, and sorted so that nested mounts come first.
*/
module Mounts {
  import opened CStrings
  import Sorting

  // ----- Octal escapes

  predicate IsOctal(c: char) { '0' <= c <= '7' }

  /** The text starts with a backslash and three octal digits. */
  predicate StartsEscape(s: string) {
    |s| >= 4 && s[0] == '\\' && IsOctal(s[1]) && IsOctal(s[2]) && IsOctal(s[3])
  }

  /** The byte that an escape stands for; the value wraps like a C char. */
  function EscapedByte(a: char, b: char, c: char): char
    requires IsOctal(a) && IsOctal(b) && IsOctal(c)
  {
    (((a as int - '0' as int) * 64 + (b as int - '0' as int) * 8 + (c as int - '0' as int)) % 256) as char
  }

  function Decode(s: string): string {
    if s == "" then ""
    else if StartsEscape(s) then [EscapedByte(s[1], s[2], s[3])] + Decode(s[4..])
    else [s[0]] + Decode(s[1..])
  }

  /** Only a backslash with three octal digits behind it stands for something else. */
  lemma {:induction false} DecodeFirst(a: char, rest: string)
    ensures Decode([a] + rest)
            == if a == '\\' && |rest| >= 3 && '0' <= rest[0] <= '7' && '0' <= rest[1] <= '7' && '0' <= rest[2] <= '7'
               then [(((rest[0] as int - 48) * 64 + (rest[1] as int - 48) * 8 + rest[2] as int - 48) % 256) as char]
                    + Decode(rest[3..])
               else [a] + Decode(rest)
  {
    var s := [a] + rest;
    assert s[1..] == rest;
    if StartsEscape(s) {
      assert s[4..] == rest[3..];
    }
  }

  lemma {:induction false} DecodeStep(text: string, k: nat)
    requires k < |text|
    ensures StartsEscape(text[k..]) ==>
              k + 4 <= |text|
              && Decode(text[k..]) == [EscapedByte(text[k + 1], text[k + 2], text[k + 3])] + Decode(text[k + 4..])
    ensures !StartsEscape(text[k..]) ==> Decode(text[k..]) == [text[k]] + Decode(text[k + 1..])
  {
    assert text[k..][1..] == text[k + 1..];
    if StartsEscape(text[k..]) {
      assert text[k..][4..] == text[k + 4..];
    }
  }

  /** From here on the buffer still holds the text and its NUL. */
  predicate Unread(buffer: array<char>, text: string, source: nat)
    reads buffer
  {
    |text| < buffer.Length && buffer[|text|] == '\0' && forall i :: source <= i < |text| ==> buffer[i] == text[i]
  }

  /** One step of the decoder: the byte it writes, and how far it reads. */
  method ReadByte(buffer: array<char>, source: nat, ghost text: string) returns (c: char, next: nat)
    requires source < |text| && '\0' !in text && Unread(buffer, text, source)
    ensures source < next <= |text| && Decode(text[source..]) == [c] + Decode(text[next..])
  {
    DecodeStep(text, source);
    if buffer[source] == '\\'
       && IsOctal(buffer[source + 1]) && IsOctal(buffer[source + 2]) && IsOctal(buffer[source + 3]) {
      c, next := EscapedByte(buffer[source + 1], buffer[source + 2], buffer[source + 3]), source + 4;
    } else {
      c, next := buffer[source], source + 1;
    }
  }

  lemma {:induction false} Regroup(a: string, b: string, c: string)
    ensures a + b + c == a + (b + c)
  {
  }

  /** The write, which is behind all that is still to be read. */
  method WriteByte(buffer: array<char>, destination: nat, c: char, ghost text: string, ghost next: nat)
    requires destination < next <= |text| && Unread(buffer, text, next)
    modifies buffer
    ensures buffer[..destination + 1] == old(buffer[..destination]) + [c] && Unread(buffer, text, next)
  {
    buffer[destination] := c;
  }

  /** decode_mount_path: the text up to the NUL at n is decoded where it stands. The
      write position never passes the read position. */
  method DecodeInPlace(buffer: array<char>, n: nat) returns (m: nat)
    requires n < buffer.Length && buffer[n] == '\0' && '\0' !in buffer[..n]
    modifies buffer
    ensures m <= n && buffer[..m] == Decode(old(buffer[..n])) && buffer[m] == '\0'
  {
    ghost var text := buffer[..n];
    var source, destination := 0, 0;
    assert text[0..] == text;
    while source < n
      invariant 0 <= destination <= source <= n && Unread(buffer, text, source)
      invariant buffer[..destination] + Decode(text[source..]) == Decode(text)
    {
      var c, next := ReadByte(buffer, source, text);
      Regroup(buffer[..destination], [c], Decode(text[next..]));
      WriteByte(buffer, destination, c, text, next);
      source, destination := next, destination + 1;
    }
    assert buffer[..destination] == Decode(text);
    buffer[destination] := '\0';
    return destination;
  }

  // ----- Decoding undoes the kernel's escaping

  function OctalDigit(d: nat): (c: char)
    requires d < 8
    ensures IsOctal(c)
  {
    '0' + d as char
  }

  /** How the kernel prints a mount point: some bytes, the backslash among them, as
      three octal digits. */
  function Encode(s: string, escaped: set<char>): string {
    if s == "" then ""
    else
      var v := s[0] as nat;
      (if s[0] in escaped && v < 256
       then ['\\', OctalDigit(v / 64), OctalDigit(v / 8 % 8), OctalDigit(v % 8)]
       else [s[0]]) + Encode(s[1..], escaped)
  }

  lemma {:induction false} OctalDigits(v: nat)
    ensures v / 64 * 64 + v / 8 % 8 * 8 + v % 8 == v
  {
    var q := v / 8;
    assert q / 8 == v / 64 && q / 8 * 8 + q % 8 == q && q * 8 + v % 8 == v;
  }

  lemma {:induction false} Spelt(a: nat, b: nat, c: nat)
    requires a < 4 && b < 8 && c < 8
    ensures EscapedByte(OctalDigit(a), OctalDigit(b), OctalDigit(c)) as nat == a * 64 + b * 8 + c
  {
  }

  lemma {:induction false} DigitsSpell(v: nat)
    requires v < 256
    ensures EscapedByte(OctalDigit(v / 64), OctalDigit(v / 8 % 8), OctalDigit(v % 8)) == v as char
  {
    OctalDigits(v);
    Spelt(v / 64, v / 8 % 8, v % 8);
  }

  lemma {:induction false} DecodeEscape(v: nat, rest: string)
    requires v < 256
    ensures Decode(['\\', OctalDigit(v / 64), OctalDigit(v / 8 % 8), OctalDigit(v % 8)] + rest)
            == [v as char] + Decode(rest)
  {
    var s := ['\\', OctalDigit(v / 64), OctalDigit(v / 8 % 8), OctalDigit(v % 8)] + rest;
    DigitsSpell(v);
    assert s[4..] == rest;
  }

  lemma {:induction false} DecodePlain(c: char, rest: string)
    requires c != '\\'
    ensures Decode([c] + rest) == [c] + Decode(rest)
  {
    assert ([c] + rest)[1..] == rest;
  }

  /** The in-place decoder inverts the escaping, whatever is escaped beside the
      backslash. */
  lemma {:induction false} DecodeOfEncode(s: string, escaped: set<char>)
    requires '\\' in escaped && forall i :: 0 <= i < |s| ==> s[i] as int < 256
    ensures Decode(Encode(s, escaped)) == s
  {
    if s != "" {
      DecodeOfEncode(s[1..], escaped);
      if s[0] in escaped {
        DecodeEscape(s[0] as nat, Encode(s[1..], escaped));
      } else {
        DecodePlain(s[0], Encode(s[1..], escaped));
      }
      assert s == [s[0]] + s[1..];
    }
  }

  // ----- The list

  /** path is the old root, or inside of it. */
  predicate AtOrBelow(path: string, root: string) { path == root || root + "/" <= path }

  /** The decoded mount point of a mountinfo line: its fifth field. */
  function MountPoint(line: string): Option<string> {
    var fields := Tokens(line, ' ');
    if |fields| < 5 then None else Some(CutAtNul(Decode(fields[4])))
  }

  /** What C takes a buffer for. */
  function CutAtNul(s: string): string { s[..IndexOf(s, '\0')] }

  lemma {:induction false} NulCuts(text: string, rest: string)
    requires '\0' !in text
    ensures CutAtNul(text + ['\0'] + rest) == text
  {
    IndexOfFirst(text, '\0', rest);
  }

  /** What a line adds to the list. */
  function Picked(line: string, root: string): seq<string> {
    var path := MountPoint(line);
    if path.Some? && AtOrBelow(path.value, root) then [path.value] else []
  }

  /** The mount points to be unmounted, in the order of the lines. */
  function Collected(lines: seq<string>, root: string): seq<string> {
    if lines == [] then [] else Collected(lines[..|lines| - 1], root) + Picked(lines[|lines| - 1], root)
  }

  /** A line says that there is a mount at this path. */
  predicate Shows(lines: seq<string>, path: string) {
    exists i :: 0 <= i < |lines| && MountPoint(lines[i]) == Some(path)
  }

  lemma {:induction false} ShowsStep(lines: seq<string>, last: string, path: string)
    ensures Shows(lines + [last], path) <==> Shows(lines, path) || MountPoint(last) == Some(path)
  {
    var all := lines + [last];
    assert all[|lines|] == last;
    if Shows(lines, path) {
      var i :| 0 <= i < |lines| && MountPoint(lines[i]) == Some(path);
      assert all[i] == lines[i];
    }
  }

  lemma {:induction false} PickedIff(line: string, root: string, path: string)
    ensures path in Picked(line, root) <==> AtOrBelow(path, root) && MountPoint(line) == Some(path)
  {
  }

  /** These are the mounts at or below the root, and no others. */
  lemma {:induction false} CollectedIff(lines: seq<string>, root: string, path: string)
    ensures path in Collected(lines, root) <==> AtOrBelow(path, root) && Shows(lines, path)
  {
    if lines != [] {
      var k := |lines| - 1;
      CollectedIff(lines[..k], root, path);
      ShowsStep(lines[..k], lines[k], path);
      PickedIff(lines[k], root, path);
      assert lines == lines[..k] + [lines[k]];
    }
  }

  // ----- The lines of mountinfo

  /** A line as the kernel prints it: four fields, the escaped mount point, and what
      else there is behind a blank. */
  datatype Mount = Mount(head: seq<string>, path: string, tail: string)

  predicate IsField(f: string) { f != "" && ' ' !in f }

  /** Blanks and backslashes are among the characters that the kernel escapes, and a
      path has no NUL. */
  predicate IsMount(m: Mount, escaped: set<char>) {
    && ' ' in escaped && '\\' in escaped
    && |m.head| == 4 && (forall f :: f in m.head ==> IsField(f))
    && m.path != "" && '\0' !in m.path && (forall i :: 0 <= i < |m.path| ==> m.path[i] as int < 256)
    && (m.tail != "" ==> m.tail[0] == ' ')
  }

  function LineOf(m: Mount, escaped: set<char>): string {
    Join(m.head + [Encode(m.path, escaped)], ' ') + m.tail
  }

  /** What is escaped does not show, if it is not used for escaping. */
  lemma {:induction false} EncodeLacks(s: string, escaped: set<char>, c: char)
    requires c in escaped && c != '\\' && !IsOctal(c) && forall i :: 0 <= i < |s| ==> s[i] as int < 256
    ensures c !in Encode(s, escaped) && (s != "" ==> Encode(s, escaped) != "")
  {
    if s != "" {
      EncodeLacks(s[1..], escaped, c);
    }
  }

  lemma {:induction false} TokensOfJoin(fields: seq<string>)
    requires |fields| > 0 && forall f :: f in fields ==> IsField(f)
    ensures Tokens(Join(fields, ' '), ' ') == fields
  {
    SplitOfJoin(fields, ' ');
    NonEmptyOfNonEmpty(fields);
  }

  lemma {:induction false} TokensBehind(text: string, tail: string, rest: string)
    requires tail == [' '] + rest
    ensures Tokens(text + tail, ' ') == Tokens(text, ' ') + Tokens(rest, ' ')
  {
    TokensAppend(text, rest, ' ');
    assert text + tail == text + [' '] + rest;
  }

  /** The fields of a text and of what is behind a blank. */
  lemma {:induction false} FieldsOf(fields: seq<string>, text: string, tail: string)
    requires |fields| > 0 && (forall f :: f in fields ==> IsField(f)) && (tail != "" ==> tail[0] == ' ')
    requires text == Join(fields, ' ')
    ensures fields <= Tokens(text + tail, ' ') && (tail == "" ==> Tokens(text + tail, ' ') == fields)
  {
    TokensOfJoin(fields);
    if tail == "" {
      assert text + tail == text;
    } else {
      TokensBehind(text, tail, tail[1..]);
    }
  }

  lemma {:induction false} NoNul(s: string)
    requires '\0' !in s
    ensures CutAtNul(s) == s
  {
  }

  /** The mount point of a line is the fifth field, without its escapes. */
  lemma {:induction false} LineShowsPath(m: Mount, escaped: set<char>)
    requires IsMount(m, escaped)
    ensures MountPoint(LineOf(m, escaped)) == Some(m.path)
  {
    var e := Encode(m.path, escaped);
    EncodeLacks(m.path, escaped, ' ');
    FieldsOf(m.head + [e], Join(m.head + [e], ' '), m.tail);
    assert Tokens(LineOf(m, escaped), ' ')[4] == (m.head + [e])[4];
    DecodeOfEncode(m.path, escaped);
    NoNul(m.path);
  }

  /** A line of fewer fields shows no mount. */
  lemma {:induction false} ShortLine(fields: seq<string>)
    requires 0 < |fields| < 5 && forall f :: f in fields ==> IsField(f)
    ensures MountPoint(Join(fields, ' ')) == None
  {
    FieldsOf(fields, Join(fields, ' '), "");
    assert Join(fields, ' ') + "" == Join(fields, ' ');
  }

  function LinesOf(ms: seq<Mount>, escaped: set<char>): (lines: seq<string>)
    ensures |lines| == |ms|
  {
    seq(|ms|, i requires 0 <= i < |ms| => LineOf(ms[i], escaped))
  }

  /** From the lines of these mounts, those at or below the root are listed. */
  lemma {:induction false} MountsAreCollected(ms: seq<Mount>, escaped: set<char>, root: string, path: string)
    requires forall i :: 0 <= i < |ms| ==> IsMount(ms[i], escaped)
    ensures path in Collected(LinesOf(ms, escaped), root) <==>
              (path == root || root + "/" <= path) && exists i :: 0 <= i < |ms| && ms[i].path == path
  {
    var lines := LinesOf(ms, escaped);
    CollectedIff(lines, root, path);
    forall i | 0 <= i < |ms| ensures MountPoint(lines[i]) == Some(ms[i].path) {
      LineShowsPath(ms[i], escaped);
    }
  }

  /** A blank is printed as a backslash and 040. */
  lemma {:induction false} BlankIsEscaped(escaped: set<char>)
    requires ' ' in escaped
    ensures Encode(" ", escaped) == "\\040" && Decode("\\040") == " "
  {
    DecodeEscape(32, "");
    assert Encode(" ", escaped) == ['\\', '0', '4', '0'] + "";
  }

  /** compare_mount_depth: longer paths first, and equally long ones downwards. */
  predicate Deeper(a: string, b: string) { |a| > |b| || (|a| == |b| && Less(b, a)) }

  lemma {:induction false} DeeperIsOrder()
    ensures Sorting.IsOrder(Deeper)
  {
    forall a, b | Deeper(a, b) ensures !Deeper(b, a) {
      CompareAntisymmetric(a, b);
    }
    forall a, b, c | !Deeper(c, b) && !Deeper(b, a) ensures !Deeper(c, a) {
      if |a| == |b| == |c| {
        Sorting.NotLessTransitive(a, b, c);
      }
    }
  }

  /** The collection and sort of unmount_old_root. */
  method MountsToUnmount(lines: seq<string>, root: string) returns (mounts: seq<string>)
    requires forall l :: l in lines ==> '\0' !in l
    ensures multiset(mounts) == multiset(Collected(lines, root))
    ensures forall i, j :: 0 <= i < |mounts| && 0 <= j < |mounts| && mounts[j] + "/" <= mounts[i] ==> i < j
  {
    var found: seq<string> := [];
    for i := 0 to |lines|
      invariant found == Collected(lines[..i], root)
    {
      assert lines[..i + 1][..i] == lines[..i];
      assert lines[i] in lines;
      var point := ReadMountPoint(lines[i]);
      if point.Some? && AtOrBelow(point.value, root) {
        found := found + [point.value];
      }
    }
    assert lines[..|lines|] == lines;
    DeeperIsOrder();
    mounts := Sorting.QsortBy(found, Deeper);
    forall i, j | 0 <= i < |mounts| && 0 <= j < |mounts| && mounts[j] + "/" <= mounts[i] ensures i < j {
      NestedIsFirst(mounts, i, j);
    }
  }

  lemma {:induction false} NestedIsFirst(mounts: seq<string>, i: nat, j: nat)
    requires Sorting.OrderedBy(mounts, Deeper) && i < |mounts| && j < |mounts| && mounts[j] + "/" <= mounts[i]
    ensures i < j
  {
    assert |mounts[i]| > |mounts[j]|;
    assert Deeper(mounts[i], mounts[j]);
  }

  /** The fifth field of a line, decoded in place. */
  method ReadMountPoint(line: string) returns (r: Option<string>)
    requires '\0' !in line
    ensures r == MountPoint(line)
  {
    var fields := Tokens(line, ' ');
    if |fields| < 5 {
      return None;
    }
    TokensLack(line, ' ', '\0');
    var token := DecodeToken(fields[4]);
    r := Some(CutAtNul(token));
  }

  method DecodeToken(token: string) returns (r: string)
    requires '\0' !in token
    ensures r == Decode(token)
  {
    var n := |token|;
    var buffer := new char[n + 1](i requires 0 <= i => if i < n then token[i] else '\0');
    assert buffer[..n] == token;
    var m := DecodeInPlace(buffer, n);
    r := buffer[..m];
  }
}
