/**
  The parts of the C library that the program's text handling rests on: character
  classes, strcmp, strtoul, printf of numbers, and cutting a string at a separator.
  A C string is a `string` without its terminating NUL; a byte is a `char`.
*/
module CStrings {

  datatype Option<+T> = None | Some(value: T)

  // ----- Character classes

  /** isspace in the C locale. */
  predicate IsSpace(c: char) {
    c == ' ' || c == '\t' || c == '\n' || c == '\U{0B}' || c == '\U{0C}' || c == '\r'
  }

  /** Tab, line feed, vertical tab, form feed, carriage return, and blank. */
  lemma {:induction false} SpaceIs(c: char)
    ensures IsSpace(c) <==> c as int == 32 || 9 <= c as int <= 13
  {
  }

  // ----- Trimming

  /** s without the white space at both ends. */
  function Trim(s: string): string { TrimRight(TrimLeft(s)) }

  function TrimLeft(s: string): (r: string)
    ensures r == "" || !IsSpace(r[0])
    ensures |r| <= |s|
  {
    if s != "" && IsSpace(s[0]) then TrimLeft(s[1..]) else s
  }

  function TrimRight(s: string): (r: string)
    ensures r == "" || !IsSpace(r[|r| - 1])
    ensures |r| <= |s|
  {
    if s != "" && IsSpace(s[|s| - 1]) then TrimRight(s[..|s| - 1]) else s
  }

  /** White space at neither end. */
  predicate Trimmed(s: string) {
    s == "" || (!IsSpace(s[0]) && !IsSpace(s[|s| - 1]))
  }

  lemma {:induction false} TrimYieldsTrimmed(s: string)
    ensures Trimmed(Trim(s))
    ensures forall c :: c in Trim(s) ==> c in s
  {
    TrimLeftKeeps(s);
    TrimRightKeeps(TrimLeft(s));
  }

  lemma {:induction false} TrimLeftKeeps(s: string)
    ensures forall c :: c in TrimLeft(s) ==> c in s
  {
    if s != "" && IsSpace(s[0]) {
      TrimLeftKeeps(s[1..]);
    }
  }

  lemma {:induction false} TrimRightKeeps(s: string)
    ensures TrimRight(s) <= s
    ensures forall c :: c in TrimRight(s) ==> c in s
  {
    if s != "" && IsSpace(s[|s| - 1]) {
      TrimRightKeeps(s[..|s| - 1]);
    }
  }

  lemma {:induction false} TrimOfTrimmed(s: string)
    requires Trimmed(s)
    ensures Trim(s) == s
  {
  }

  predicate AllSpace(s: string) { forall i :: 0 <= i < |s| ==> IsSpace(s[i]) }

  /** Trimming cuts off white space, at both ends, and nothing else. */
  lemma {:induction false} TrimCuts(s: string) returns (a: string, b: string)
    ensures s == a + Trim(s) + b && AllSpace(a) && AllSpace(b)
  {
    a := LeftCut(s);
    b := RightCut(TrimLeft(s));
    assert s == a + (Trim(s) + b);
  }

  /** White space around a text with none at its ends is all that is cut off. */
  lemma {:induction false} TrimWrapped(a: string, core: string, b: string)
    requires AllSpace(a) && Trimmed(core) && AllSpace(b)
    ensures Trim(a + (core + b)) == core
  {
    if core == "" {
      LeftCutOff(a + b, "");
      assert a + (core + b) == a + b + "";
    } else {
      assert (core + b)[0] == core[0];
      LeftCutOff(a, core + b);
      RightCutOff(core, b);
    }
  }

  lemma {:induction false} LeftCutOff(a: string, rest: string)
    requires AllSpace(a) && (rest == "" || !IsSpace(rest[0]))
    ensures TrimLeft(a + rest) == rest
  {
    if a == "" {
      assert a + rest == rest;
    } else {
      LeftCutOff(a[1..], rest);
      assert (a + rest)[1..] == a[1..] + rest;
    }
  }

  lemma {:induction false} RightCutOff(core: string, b: string)
    requires AllSpace(b) && (core == "" || !IsSpace(core[|core| - 1]))
    ensures TrimRight(core + b) == core
  {
    if b == "" {
      assert core + b == core;
    } else {
      RightCutOff(core, b[..|b| - 1]);
      assert (core + b)[..|core + b| - 1] == core + b[..|b| - 1];
    }
  }

  lemma {:induction false} LeftCut(s: string) returns (a: string)
    ensures s == a + TrimLeft(s) && AllSpace(a)
  {
    if s != "" && IsSpace(s[0]) {
      var rest := LeftCut(s[1..]);
      a := [s[0]] + rest;
      assert s == [s[0]] + s[1..];
    } else {
      a := "";
    }
  }

  lemma {:induction false} RightCut(s: string) returns (b: string)
    ensures s == TrimRight(s) + b && AllSpace(b)
  {
    if s != "" && IsSpace(s[|s| - 1]) {
      var rest := RightCut(s[..|s| - 1]);
      b := rest + [s[|s| - 1]];
      assert s == s[..|s| - 1] + [s[|s| - 1]];
    } else {
      b := "";
    }
  }

  // ----- strchr

  /** The index of the first c of s, or |s| if there is none. */
  function IndexOf(s: string, c: char): (i: nat)
    ensures i <= |s| && (i < |s| ==> s[i] == c) && c !in s[..i]
    ensures c in s <==> i < |s|
  {
    if s == "" || s[0] == c then 0
    else
      var i := IndexOf(s[1..], c) + 1;
      assert s[..i] == [s[0]] + s[1..][..i - 1];
      i
  }

  lemma {:induction false} IndexOfFirst(before: string, c: char, after: string)
    requires c !in before
    ensures IndexOf(before + [c] + after, c) == |before|
  {
    var s := before + [c] + after;
    var i := IndexOf(s, c);
    assert s[|before|] == c;
  }

  /** strrchr: the index of the last c of s, or |s| if there is none. */
  function LastIndexOf(s: string, c: char): (i: nat)
    ensures i <= |s|
  {
    if c !in s then |s|
    else if s[|s| - 1] == c then |s| - 1
    else LastIndexOf(s[..|s| - 1], c)
  }

  lemma {:induction false} LastIndexOfLast(s: string, c: char)
    requires c in s
    ensures var i := LastIndexOf(s, c); i < |s| && s[i] == c && c !in s[i + 1..]
  {
    if s[|s| - 1] != c {
      LastIndexOfLast(s[..|s| - 1], c);
      var i := LastIndexOf(s, c);
      assert s[i + 1..] == s[..|s| - 1][i + 1..] + [s[|s| - 1]];
    }
  }

  // ----- Cutting at a separator

  /** The pieces of s between separators; one more piece than separators. */
  function Split(s: string, sep: char): (parts: seq<string>)
    ensures |parts| > 0
    ensures forall p :: p in parts ==> sep !in p
  {
    if sep !in s then [s]
    else
      var i := IndexOf(s, sep);
      [s[..i]] + Split(s[i + 1..], sep)
  }

  /** The parts with a separator between neighbours. */
  function Join(parts: seq<string>, sep: char): string
    requires |parts| > 0
  {
    if |parts| == 1 then parts[0] else parts[0] + [sep] + Join(parts[1..], sep)
  }

  lemma {:induction false} SplitFirst(a: string, sep: char, rest: string)
    requires sep !in a
    ensures Split(a + [sep] + rest, sep) == [a] + Split(rest, sep)
  {
    var s := a + [sep] + rest;
    IndexOfFirst(a, sep, rest);
    assert s[|a|] == sep;
    assert s[..|a|] == a && s[|a| + 1..] == rest;
  }

  lemma {:induction false} SplitOfJoin(parts: seq<string>, sep: char)
    requires |parts| > 0 && forall p :: p in parts ==> sep !in p
    ensures Split(Join(parts, sep), sep) == parts
  {
    if |parts| > 1 {
      assert forall p :: p in parts[1..] ==> p in parts;
      SplitFirst(parts[0], sep, Join(parts[1..], sep));
      SplitOfJoin(parts[1..], sep);
    }
  }

  lemma {:induction false} JoinOfSplit(s: string, sep: char)
    ensures Join(Split(s, sep), sep) == s
    decreases |s|
  {
    if sep in s {
      var i := IndexOf(s, sep);
      JoinOfSplit(s[i + 1..], sep);
      assert s == s[..i] + [sep] + s[i + 1..];
      assert Split(s, sep)[1..] == Split(s[i + 1..], sep);
    }
  }

  lemma {:induction false} JoinSnoc(parts: seq<string>, last: string, sep: char)
    requires |parts| > 0
    ensures Join(parts + [last], sep) == Join(parts, sep) + [sep] + last
  {
    if |parts| > 1 {
      assert (parts + [last])[1..] == parts[1..] + [last];
      JoinSnoc(parts[1..], last, sep);
    }
  }

  lemma {:induction false} JoinAppend(p: seq<string>, q: seq<string>, sep: char)
    requires |p| > 0 && |q| > 0
    ensures Join(p + q, sep) == Join(p, sep) + [sep] + Join(q, sep)
  {
    if |p| == 1 {
      assert (p + q)[1..] == q;
    } else {
      assert (p + q)[1..] == p[1..] + q;
      JoinAppend(p[1..], q, sep);
    }
  }

  lemma {:induction false} SplitAppend(a: string, b: string, sep: char)
    ensures Split(a + [sep] + b, sep) == Split(a, sep) + Split(b, sep)
  {
    var p, q := Split(a, sep), Split(b, sep);
    JoinOfSplit(a, sep);
    JoinOfSplit(b, sep);
    JoinAppend(p, q, sep);
    SplitOfJoin(p + q, sep);
  }

  /** What strtok_r(s, sep) yields call after call: the pieces that are not empty. */
  function Tokens(s: string, sep: char): (t: seq<string>)
    ensures forall p :: p in t ==> p != "" && sep !in p
  {
    NonEmpty(Split(s, sep))
  }

  function NonEmpty(parts: seq<string>): (t: seq<string>)
    ensures forall p :: p in t <==> p in parts && p != ""
  {
    if parts == [] then []
    else if parts[0] == "" then NonEmpty(parts[1..])
    else [parts[0]] + NonEmpty(parts[1..])
  }

  lemma {:induction false} NonEmptyOfNonEmpty(parts: seq<string>)
    requires forall p :: p in parts ==> p != ""
    ensures NonEmpty(parts) == parts
  {
    if parts != [] {
      assert parts[0] in parts;
      assert forall p :: p in parts[1..] ==> p in parts;
      NonEmptyOfNonEmpty(parts[1..]);
    }
  }

  lemma {:induction false} NonEmptyOfAppend(a: seq<string>, b: seq<string>)
    ensures NonEmpty(a + b) == NonEmpty(a) + NonEmpty(b)
  {
    if a == [] {
      assert a + b == b;
    } else {
      assert (a + b)[1..] == a[1..] + b;
      NonEmptyOfAppend(a[1..], b);
    }
  }

  /** Cutting off what is behind a separator cuts off the tokens behind it. */
  lemma {:induction false} TokensAppend(a: string, b: string, sep: char)
    ensures Tokens(a + [sep] + b, sep) == Tokens(a, sep) + Tokens(b, sep)
  {
    SplitAppend(a, b, sep);
    NonEmptyOfAppend(Split(a, sep), Split(b, sep));
  }

  /** What is not in the text is in no token. */
  lemma {:induction false} TokensLack(s: string, sep: char, c: char)
    requires c !in s
    ensures forall p :: p in Tokens(s, sep) ==> c !in p
    decreases |s|
  {
    if sep in s {
      var i := IndexOf(s, sep);
      TokensLack(s[i + 1..], sep, c);
      var first, rest := s[..i], Split(s[i + 1..], sep);
      assert ([first] + rest)[1..] == rest;
      assert Tokens(s, sep) == (if first == "" then [] else [first]) + NonEmpty(rest);
    } else {
      TokensOfPiece(s, sep);
    }
  }

  lemma {:induction false} TokensOfPiece(s: string, sep: char)
    requires sep !in s
    ensures Tokens(s, sep) == if s == "" then [] else [s]
  {
    assert Split(s, sep) == [s];
    assert NonEmpty([]) == [];
    assert [s][1..] == [];
  }

  // ----- strcmp

  /** The sign of strcmp, which compares bytes as unsigned numbers. */
  function Compare(a: string, b: string): (r: int)
    ensures -1 <= r <= 1
    ensures r == 0 <==> a == b
  {
    if a == "" && b == "" then 0
    else if a == "" then -1
    else if b == "" then 1
    else if a[0] < b[0] then -1
    else if b[0] < a[0] then 1
    else
      assert a == [a[0]] + a[1..] && b == [b[0]] + b[1..];
      Compare(a[1..], b[1..])
  }

  predicate Less(a: string, b: string) { Compare(a, b) < 0 }

  /** The texts are the same up to a place where one ends or has the smaller byte. */
  predicate LessAt(a: string, b: string, i: nat) {
    i <= |a| && i < |b| && a[..i] == b[..i] && (i == |a| || a[i] < b[i])
  }

  lemma {:induction false} LessBehind(a: string, b: string, i: nat)
    requires LessAt(a, b, i) && i > 0
    ensures a != "" && a[0] == b[0] && LessAt(a[1..], b[1..], i - 1)
  {
    assert a[0] == a[..i][0] && b[0] == b[..i][0];
    assert a[1..][..i - 1] == a[..i][1..] && b[1..][..i - 1] == b[..i][1..];
  }

  /** The order is decided by the first place where the two texts differ, where
      the end of a text comes before any character. */
  lemma {:induction false} LessIff(a: string, b: string)
    ensures Less(a, b) <==> exists i: nat :: LessAt(a, b, i)
  {
    forall i: nat | LessAt(a, b, i) && i > 0
      ensures a != "" && a[0] == b[0] && LessAt(a[1..], b[1..], i - 1)
    {
      LessBehind(a, b, i);
    }
    if a == "" || b == "" || a[0] != b[0] {
      assert Less(a, b) ==> LessAt(a, b, 0);
    } else {
      LessIff(a[1..], b[1..]);
      if Less(a, b) {
        var i: nat :| LessAt(a[1..], b[1..], i);
        assert a[..i + 1] == [a[0]] + a[1..][..i] && b[..i + 1] == [b[0]] + b[1..][..i];
        assert LessAt(a, b, i + 1);
      }
    }
  }

  lemma {:induction false} CompareAntisymmetric(a: string, b: string)
    ensures Compare(a, b) == -Compare(b, a)
  {
    if a != "" && b != "" {
      CompareAntisymmetric(a[1..], b[1..]);
    }
  }

  lemma {:induction false} LessTransitive(a: string, b: string, c: string)
    requires Less(a, b) && Less(b, c)
    ensures Less(a, c)
  {
    if a != "" && a[0] == b[0] && b[0] == c[0] {
      LessTransitive(a[1..], b[1..], c[1..]);
    }
  }

  /** A proper prefix comes first. */
  lemma {:induction false} PrefixIsLess(a: string, b: string)
    requires a < b
    ensures Less(a, b)
  {
    if a != "" {
      assert a[1..] < b[1..];
      PrefixIsLess(a[1..], b[1..]);
    }
  }

  // ----- strtoul on a platform with 64-bit unsigned long

  const UlongMax: nat := 0xffff_ffff_ffff_ffff

  function DigitValue(c: char): (v: nat)
  {
    if '0' <= c <= '9' then c as nat - '0' as nat
    else if 'a' <= c <= 'z' then c as nat - 'a' as nat + 10
    else if 'A' <= c <= 'Z' then c as nat - 'A' as nat + 10
    else 99
  }

  predicate IsDigit(c: char, hex: bool) { DigitValue(c) < if hex then 16 else 10 }

  lemma {:induction false} IsDigitIff(c: char, hex: bool)
    ensures IsDigit(c, hex) <==> '0' <= c <= '9' || (hex && ('a' <= c <= 'f' || 'A' <= c <= 'F'))
  {
  }

  lemma {:induction false} DigitValues(d: nat)
    requires d < 16
    ensures DigitValue("0123456789abcdef"[d]) == d && DigitValue("0123456789ABCDEF"[d]) == d
  {
  }

  /** How many digits s starts with. */
  function DigitCount(s: string, hex: bool): (n: nat)
    ensures n <= |s|
  {
    if s != "" && IsDigit(s[0], hex) then 1 + DigitCount(s[1..], hex) else 0
  }

  /** The number these digits spell, in base sixteen or ten. */
  function Value(digits: string, hex: bool): nat {
    if digits == "" then 0
    else
      var v := Value(digits[..|digits| - 1], hex);
      (if hex then 16 * v else 10 * v) + DigitValue(digits[|digits| - 1])
  }

  /** value and end as strtoul returns them; erange when it sets errno. Without
      a digit the end is the start of the text. */
  datatype Number = Number(value: nat, end: nat, erange: bool)

  /** The size of the sign at the start of s. */
  function SignSize(s: string): nat {
    if s != "" && (s[0] == '+' || s[0] == '-') then 1 else 0
  }

  /** The size of the prefix at the start of s: 0x only counts with a digit behind it. */
  function PrefixLength(s: string, hex: bool): nat {
    if hex && |s| > 2 && s[0] == '0' && (s[1] == 'x' || s[1] == 'X') && IsDigit(s[2], true) then 2 else 0
  }

  function Strtoul(s: string, hex: bool): (n: Number)
  {
    var t := TrimLeft(s);
    var u := t[SignSize(t)..];
    var digits := u[PrefixLength(u, hex)..];
    var count := DigitCount(digits, hex);
    if count == 0 then Number(0, 0, false)
    else
      var v, end := Value(digits[..count], hex), |s| - |digits| + count;
      if v > UlongMax then Number(UlongMax, end, true)
      else Number(if t[0] == '-' && v > 0 then UlongMax + 1 - v else v, end, false)
  }

  lemma {:induction false} DigitCountOfDigits(s: string, hex: bool)
    requires forall i :: 0 <= i < |s| ==> IsDigit(s[i], hex)
    ensures DigitCount(s, hex) == |s|
  {
    if s != "" {
      DigitCountOfDigits(s[1..], hex);
    }
  }

  /** strtoul of plain digits reads all of them. */
  lemma {:induction false} StrtoulOfDigits(s: string, hex: bool)
    requires s != "" && forall i :: 0 <= i < |s| ==> IsDigit(s[i], hex)
    requires Value(s, hex) <= UlongMax
    ensures Strtoul(s, hex) == Number(Value(s, hex), |s|, false)
  {
    DigitIsPlain(s[0]);
    if |s| > 1 {
      DigitIsPlain(s[1]);
    }
    DigitCountOfDigits(s, hex);
    var v := Value(s, hex);
    WholeNumber(s, hex, v);
  }

  lemma {:induction false} WholeNumber(s: string, hex: bool, v: nat)
    requires s != "" && DigitCount(s, hex) == |s| && v == Value(s, hex) <= UlongMax
    requires !IsSpace(s[0]) && s[0] != '+' && s[0] != '-'
    requires |s| > 1 ==> s[1] != 'x' && s[1] != 'X'
    ensures Strtoul(s, hex) == Number(v, |s|, false)
  {
    assert TrimLeft(s) == s && s[0..] == s && s[..|s|] == s;
  }

  /** What strtoul reads as a number: white space, a sign, in base sixteen perhaps
      a prefix, and digits. */
  datatype Spelling = Spelling(space: string, sign: string, prefix: string, digits: string)
  {
    predicate Valid(hex: bool) {
      && AllSpace(space) && (sign == "" || sign == "+" || sign == "-")
      && (prefix == "" || (hex && (prefix == "0x" || prefix == "0X")))
      && digits != "" && forall i :: 0 <= i < |digits| ==> IsDigit(digits[i], hex)
    }

    function Text(): string { space + (sign + (prefix + digits)) }

    predicate Fits(hex: bool) { Value(digits, hex) < 0x1_0000_0000_0000_0000 }

    /** A number with a minus is its complement to 2^64. */
    function Meaning(hex: bool): nat
      requires Fits(hex)
    {
      var v := Value(digits, hex);
      if sign == "-" && v > 0 then 0x1_0000_0000_0000_0000 - v else v
    }
  }

  lemma {:induction false} SignInFront(sign: string, rest: string)
    requires sign == "" || sign == "+" || sign == "-"
    requires rest != "" && !IsSpace(rest[0]) && rest[0] != '+' && rest[0] != '-'
    ensures var t := sign + rest;
            && !IsSpace(t[0]) && SignSize(t) == |sign| && t[SignSize(t)..] == rest && (t[0] == '-' <==> sign == "-")
  {
    assert sign == "" ==> sign + rest == rest;
  }

  lemma {:induction false} PrefixInFront(prefix: string, digits: string, hex: bool)
    requires prefix == "" || (hex && (prefix == "0x" || prefix == "0X"))
    requires digits != "" && forall i :: 0 <= i < |digits| ==> IsDigit(digits[i], hex)
    ensures var u := prefix + digits;
            && !IsSpace(u[0]) && u[0] != '+' && u[0] != '-'
            && PrefixLength(u, hex) == |prefix| && u[PrefixLength(u, hex)..] == digits
  {
    DigitIsPlain(digits[0]);
    if prefix == "" {
      assert prefix + digits == digits;
      if |digits| > 1 {
        assert IsDigit(digits[1], hex);
        DigitIsPlain(digits[1]);
      }
    } else {
      assert (prefix + digits)[2] == digits[0];
    }
  }

  lemma {:induction false} StrtoulOfParts(s: string, hex: bool, t: string, u: string, digits: string)
    requires t == TrimLeft(s) && u == t[SignSize(t)..] && digits == u[PrefixLength(u, hex)..]
    requires digits != "" && DigitCount(digits, hex) == |digits|
    ensures Strtoul(s, hex) == var v := Value(digits, hex);
                               if v > UlongMax then Number(UlongMax, |s|, true)
                               else Number(if t[0] == '-' && v > 0 then UlongMax + 1 - v else v, |s|, false)
  {
    assert digits[..|digits|] == digits;
  }

  /** A spelled number is read to its end; errno is set if it does not fit. */
  lemma {:induction false} SpellingIsRead(p: Spelling, hex: bool)
    requires p.Valid(hex)
    ensures var s := p.Text();
            Strtoul(s, hex) == if p.Fits(hex) then Number(p.Meaning(hex), |s|, false) else Number(UlongMax, |s|, true)
  {
    var u := p.prefix + p.digits;
    PrefixInFront(p.prefix, p.digits, hex);
    SignInFront(p.sign, u);
    LeftCutOff(p.space, p.sign + u);
    DigitCountOfDigits(p.digits, hex);
    StrtoulOfParts(p.Text(), hex, p.sign + u, u, p.digits);
  }

  lemma {:induction false} SignCases(t: string)
    ensures t[..SignSize(t)] == "" || t[..SignSize(t)] == "+" || t[..SignSize(t)] == "-"
  {
  }

  lemma {:induction false} PrefixCases(u: string, hex: bool)
    ensures var p := u[..PrefixLength(u, hex)]; p == "" || (hex && (p == "0x" || p == "0X"))
  {
  }

  lemma {:induction false} AllRead(s: string, hex: bool)
    requires s != "" && Strtoul(s, hex).end == |s|
    ensures var t := TrimLeft(s);
            var u := t[SignSize(t)..];
            var digits := u[PrefixLength(u, hex)..];
            digits != "" && DigitCount(digits, hex) == |digits|
  {
  }

  /** Whatever is read to its end is spelled like that. */
  lemma {:induction false} SpellingOf(s: string, hex: bool) returns (p: Spelling)
    requires s != "" && Strtoul(s, hex).end == |s|
    ensures p.Valid(hex) && p.Text() == s
  {
    var space := LeftCut(s);
    var t := TrimLeft(s);
    var u := t[SignSize(t)..];
    var digits := u[PrefixLength(u, hex)..];
    AllRead(s, hex);
    SignCases(t);
    PrefixCases(u, hex);
    DigitsCounted(digits, hex);
    CutInTwo(t, SignSize(t));
    CutInTwo(u, PrefixLength(u, hex));
    p := Together(space, t[..SignSize(t)], u[..PrefixLength(u, hex)], digits, hex);
  }

  lemma {:induction false} CutInTwo(s: string, n: nat)
    requires n <= |s|
    ensures s[..n] + s[n..] == s
  {
  }

  lemma {:induction false} Together(space: string, sign: string, prefix: string, digits: string, hex: bool)
    returns (p: Spelling)
    requires AllSpace(space) && (sign == "" || sign == "+" || sign == "-")
    requires prefix == "" || (hex && (prefix == "0x" || prefix == "0X"))
    requires digits != "" && forall i :: 0 <= i < |digits| ==> IsDigit(digits[i], hex)
    ensures p.Valid(hex) && p.Text() == space + (sign + (prefix + digits))
  {
    p := Spelling(space, sign, prefix, digits);
  }

  lemma {:induction false} DigitsCounted(s: string, hex: bool)
    ensures forall i :: 0 <= i < DigitCount(s, hex) ==> IsDigit(s[i], hex)
  {
    if s != "" && IsDigit(s[0], hex) {
      DigitsCounted(s[1..], hex);
      assert forall i :: 0 < i < |s| ==> s[i] == s[1..][i - 1];
    }
  }

  /** All of a text is read as this number exactly if it is spelled by the text and fits. */
  lemma {:induction false} StrtoulIff(s: string, hex: bool, n: nat)
    ensures s != "" && Strtoul(s, hex) == Number(n, |s|, false)
            <==> exists p: Spelling :: p.Valid(hex) && p.Text() == s && p.Fits(hex) && p.Meaning(hex) == n
  {
    if s != "" && Strtoul(s, hex).end == |s| {
      var p := SpellingOf(s, hex);
      SpellingIsRead(p, hex);
    }
    forall p: Spelling | p.Valid(hex) && p.Text() == s && p.Fits(hex)
      ensures s != "" && Strtoul(s, hex) == Number(p.Meaning(hex), |s|, false)
    {
      SpellingIsRead(p, hex);
    }
  }

  lemma {:induction false} DigitIsPlain(c: char)
    requires IsDigit(c, true)
    ensures !IsSpace(c) && c != '+' && c != '-' && c != 'x' && c != 'X'
  {
  }

  // ----- printf of numbers

  function Digit(d: nat): (c: char)
    requires d < 16
    ensures IsDigit(c, true) && (d < 10 ==> IsDigit(c, false)) && DigitValue(c) == d
  {
    if d < 10 then '0' + d as char else 'a' + (d - 10) as char
  }

  lemma {:induction false} DigitIs(d: nat)
    requires d < 16
    ensures Digit(d) == "0123456789abcdef"[d]
  {
  }

  /** %u */
  function Decimal(n: nat): (s: string)
    ensures s != "" && forall i :: 0 <= i < |s| ==> IsDigit(s[i], false)
  {
    if n < 10 then [Digit(n)] else Decimal(n / 10) + [Digit(n % 10)]
  }

  lemma {:induction false} ValueOfDecimal(n: nat)
    ensures Value(Decimal(n), false) == n
  {
    if n >= 10 {
      ValueOfDecimal(n / 10);
      assert Decimal(n)[..|Decimal(n)| - 1] == Decimal(n / 10);
    } else {
      assert Value("", false) == 0;
      assert [Digit(n)][..0] == "";
    }
  }
}
