/**
  The two configuration files of src/config.c: the host configuration and the
  runtime configuration inside a recovery root. Parsing is a loop over lines that
  is proved against a reading of the text as a set of settings; formatting is its
  inverse on the configurations the program can hold.
*/
module Config {
  import opened CStrings

  const ConfigVersion: nat := 1
  const DefaultTimeout: nat := 5
  const MaxTimeout: nat := 3600
  const PathCapacity: nat := 4096
  const UintMax: nat := 0xffff_ffff

  datatype BootChoice = Normal | Shell | Poweroff
  datatype EntryMode = Supervised | Handoff
  datatype HostConfig = HostConfig(version: nat, timeout: nat, defaultChoice: BootChoice)
  datatype RuntimeConfig = RuntimeConfig(version: nat, entryMode: EntryMode, entry: string)

  function ChoiceName(c: BootChoice): string {
    match c
    case Normal => "normal"
    case Shell => "shell"
    case Poweroff => "poweroff"
  }

  function ParseChoice(text: string): Option<BootChoice> {
    if text == "normal" then Some(Normal)
    else if text == "shell" then Some(Shell)
    else if text == "poweroff" then Some(Poweroff)
    else None
  }

  function ModeName(m: EntryMode): string {
    if m == Handoff then "handoff" else "supervised"
  }

  const HostDefault := HostConfig(ConfigVersion, DefaultTimeout, Normal)
  const RuntimeDefault := RuntimeConfig(ConfigVersion, Supervised, "/entry.sh")

  /** bp_parse_uint: all of the text is a number up to the maximum. */
  function ParseUint(text: string, maximum: nat): Option<nat> {
    var n := Strtoul(text, false);
    if n.erange || text == "" || n.end != |text| || n.value > maximum then None else Some(n.value)
  }

  lemma {:induction false} ParseUintOfDecimal(n: nat, maximum: nat)
    requires n <= maximum <= UlongMax
    ensures ParseUint(Decimal(n), maximum) == Some(n)
  {
    ValueOfDecimal(n);
    StrtoulOfDigits(Decimal(n), false);
  }

  /** A text is a number up to the maximum exactly if it is spelled with optional white
      space, an optional sign and decimal digits, and means that number. */
  lemma {:induction false} ParseUintIff(text: string, maximum: nat, n: nat)
    ensures ParseUint(text, maximum) == Some(n)
            <==> n <= maximum && exists p: Spelling ::
                   p.Valid(false) && p.Text() == text && p.Fits(false) && p.Meaning(false) == n
  {
    StrtoulIff(text, false, n);
  }

  // ----- Entry paths

  /** A path component that names something below its directory. */
  predicate PlainComponent(c: string) {
    c != "" && c != "." && c != ".."
  }

  /** Every component is plain, where one empty component may end the list: the
      loops over components stop at the end of the text and so never look at
      what a final separator is followed by. */
  predicate PlainPath(parts: seq<string>)
    requires |parts| > 0
  {
    if |parts| == 1 then parts[0] == "" || PlainComponent(parts[0])
    else PlainComponent(parts[0]) && PlainPath(parts[1..])
  }

  /** No component is . or .., and none but the last is empty. */
  predicate NoDots(parts: seq<string>) {
    forall i :: 0 <= i < |parts| ==> parts[i] != "." && parts[i] != ".." && (parts[i] == "" ==> i == |parts| - 1)
  }

  lemma {:induction false} PlainPathIff(parts: seq<string>)
    requires |parts| > 0
    ensures PlainPath(parts) <==> NoDots(parts)
  {
    if |parts| > 1 {
      var rest := parts[1..];
      PlainPathIff(rest);
      assert forall i :: 0 <= i < |rest| ==> rest[i] == parts[i + 1];
    }
  }

  predicate ValidEntry(entry: string) {
    entry != "" && entry[0] == '/' && |entry| < PathCapacity && PlainPath(Split(entry[1..], '/'))
  }

  /** The test of the component of this size at a place of the text. */
  method ComponentIsPlain(text: string, start: nat, size: nat) returns (ok: bool)
    requires start + size <= |text|
    ensures ok <==> PlainComponent(text[start..start + size])
  {
    ghost var c := text[start..start + size];
    assert forall i :: 0 <= i < size ==> c[i] == text[start + i];
    ok := !(size == 0 || (size == 1 && text[start] == '.')
            || (size == 2 && text[start] == '.' && text[start + 1] == '.'));
  }

  /** The component loop that bp_validate_entry and valid_archive_name share. */
  method ComponentsArePlain(text: string) returns (ok: bool)
    ensures ok <==> PlainPath(Split(text, '/'))
  {
    var component := text;
    while component != ""
      invariant PlainPath(Split(component, '/')) <==> PlainPath(Split(text, '/'))
      decreases |component|
    {
      var end := IndexOf(component, '/');
      var plain := ComponentIsPlain(component, 0, end);
      if !plain {
        return false;
      }
      if end == |component| {
        return true;
      }
      assert Split(component, '/')[1..] == Split(component[end + 1..], '/');
      component := component[end + 1..];
    }
    return true;
  }

  /** A valid entry is absolute, fits its buffer, and has no . or .. in it. */
  lemma {:induction false} ValidEntryIff(entry: string)
    ensures ValidEntry(entry) <==>
              entry != "" && entry[0] == '/' && |entry| < 4096 && NoDots(Split(entry[1..], '/'))
  {
    if entry != "" {
      PlainPathIff(Split(entry[1..], '/'));
    }
  }

  method ValidateEntry(entry: string) returns (ok: bool)
    ensures ok <==> ValidEntry(entry)
  {
    if entry == "" || entry[0] != '/' || |entry| >= PathCapacity {
      return false;
    }
    ok := ComponentsArePlain(entry[1..]);
  }

  // ----- Lines

  /** bp_trim: moves the start forward and then the end back over white space. */
  method TrimInPlace(text: string) returns (r: string)
    ensures r == Trim(text)
  {
    var start := 0;
    while start < |text| && IsSpace(text[start])
      invariant start <= |text| && TrimLeft(text[start..]) == TrimLeft(text)
    {
      start := start + 1;
    }
    r := CutEnd(text[start..]);
  }

  method CutEnd(text: string) returns (r: string)
    ensures r == TrimRight(text)
  {
    var end := |text|;
    assert text[..end] == text;
    while end > 0 && IsSpace(text[end - 1])
      invariant end <= |text| && TrimRight(text[..end]) == TrimRight(text)
    {
      assert text[..end][..end - 1] == text[..end - 1];
      end := end - 1;
    }
    r := text[..end];
  }

  /** What one line says before its key is looked at. */
  datatype RawLine = Ignored | NotKeyValue | Pair(key: string, value: string)

  function ReadLine(raw: string): RawLine {
    var line := Trim(raw);
    if line == "" || line[0] == '#' then Ignored
    else if '=' !in line then NotKeyValue
    else
      var i := IndexOf(line, '=');
      Pair(Trim(line[..i]), Trim(line[i + 1..]))
  }

  method CutLine(raw: string) returns (r: RawLine)
    ensures r == ReadLine(raw)
  {
    var line := TrimInPlace(raw);
    if line == "" || line[0] == '#' {
      return Ignored;
    }
    var separator := IndexOf(line, '=');
    if separator == |line| {
      return NotKeyValue;
    }
    var key := TrimInPlace(line[..separator]);
    var value := TrimInPlace(line[separator + 1..]);
    return Pair(key, value);
  }

  lemma {:induction false} ReadLineOfPair(key: string, value: string)
    requires key != "" && value != "" && Trimmed(key) && Trimmed(value)
    requires key[0] != '#' && '=' !in key
    ensures ReadLine(key + ['='] + value) == Pair(key, value)
  {
    var line := key + ['='] + value;
    TrimmedPair(key, value);
    TrimOfTrimmed(line);
    IndexOfFirst(key, '=', value);
    TrimOfTrimmed(key);
    TrimOfTrimmed(value);
  }

  lemma {:induction false} TrimmedPair(key: string, value: string)
    requires key != "" && value != "" && Trimmed(key) && Trimmed(value)
    ensures var line := key + ['='] + value;
            Trimmed(line) && line != "" && line[0] == key[0] && '=' in line
            && line[..|key|] == key && line[|key| + 1..] == value
  {
    var line := key + ['='] + value;
    assert line[|line| - 1] == value[|value| - 1];
    assert line[|key|] == '=';
  }

  /** White space around a key, an equals sign and a value says nothing. */
  lemma {:induction false} SpacedPairIsRead(a: string, key: string, b: string, c: string, value: string, d: string)
    requires AllSpace(a) && AllSpace(b) && AllSpace(c) && AllSpace(d)
    requires key != "" && key[0] != '#' && '=' !in key && Trimmed(key) && Trimmed(value)
    ensures ReadLine(a + ((key + b) + (['='] + (c + (value + d))))) == Pair(key, value)
  {
    PairInTrimmed(a, key + b, c + (value + d));
    TrimWrapped(c, value, d);
    TrimWrapped("", key, b);
    assert "" + (key + b) == key + b;
  }

  /** The line without the white space at its ends is the key and its blanks, the
      equals sign, and what remains of the value and its blanks. */
  lemma {:induction false} PairInTrimmed(a: string, key: string, value: string)
    requires AllSpace(a) && key != "" && key[0] != '#' && !IsSpace(key[0]) && '=' !in key
    ensures ReadLine(a + (key + (['='] + value))) == Pair(Trim(key), Trim(value))
  {
    var tail := TrimRight(value);
    TrimmedLine(a, key, value);
    var line := key + (['='] + tail);
    assert line[|key|] == '=' && line[|key| + 1..] == tail;
    EqualsAt(key, tail);
    TrimOfCut(value);
  }

  lemma {:induction false} EqualsAt(key: string, tail: string)
    requires '=' !in key
    ensures var line := key + (['='] + tail); IndexOf(line, '=') == |key| && line[..|key|] == key
  {
    IndexOfFirst(key, '=', tail);
    assert key + (['='] + tail) == key + ['='] + tail;
  }

  lemma {:induction false} TrimmedLine(a: string, key: string, value: string)
    requires AllSpace(a) && key != "" && !IsSpace(key[0])
    ensures Trim(a + (key + (['='] + value))) == key + (['='] + TrimRight(value))
  {
    LeftCutOff(a, key + (['='] + value));
    TrimmedTail(key + ['='], value);
    Regroup(key, ['='], value);
    Regroup(key, ['='], TrimRight(value));
  }

  lemma {:induction false} Regroup(a: string, b: string, c: string)
    ensures a + (b + c) == a + b + c
  {
  }

  /** White space at the end of a text is at the end of its part. */
  lemma {:induction false} TrimmedTail(head: string, tail: string)
    requires head != "" && !IsSpace(head[|head| - 1])
    ensures TrimRight(head + tail) == head + TrimRight(tail)
  {
    var b := RightCut(tail);
    var kept := TrimRight(tail);
    assert kept != "" ==> (head + kept)[|head + kept| - 1] == kept[|kept| - 1];
    RightCutOff(head + kept, b);
    assert head + tail == head + kept + b;
    assert kept == "" ==> head + kept == head;
  }

  lemma {:induction false} TrimOfCut(text: string)
    ensures Trim(TrimRight(text)) == Trim(text)
  {
    var a, b := TrimCuts(text);
    var c := RightCut(text);
    var d, e := TrimCuts(TrimRight(text));
    TrimYieldsTrimmed(TrimRight(text));
    assert text == d + (Trim(TrimRight(text)) + (e + c));
    TrimWrapped(d, Trim(TrimRight(text)), e + c);
  }

  /** A line of white space, with or without a comment behind it, is ignored. */
  lemma {:induction false} CommentIsIgnored(space: string, comment: string)
    requires AllSpace(space) && (comment == "" || comment[0] == '#')
    ensures ReadLine(space + comment) == Ignored
  {
    var rest := comment;
    LeftCutOff(space, comment);
    if comment != "" {
      TrimRightKeeps(comment);
      assert !IsSpace('#');
      HeadStays(comment);
    }
  }

  lemma {:induction false} HeadStays(text: string)
    requires text != "" && !IsSpace(text[0])
    ensures TrimRight(text) != "" && TrimRight(text)[0] == text[0]
  {
    TrimmedTail(text[..1], text[1..]);
    assert text == text[..1] + text[1..];
  }

  /** What a whole line means: nothing, a refusal, or a new value for a slot,
      which is one bit of the set of slots seen so far. */
  datatype Reading<+S> = Nothing | Rejected | Sets(slot: bv8, setting: S)

  predicate IsSlot(slot: bv8) { slot == 1 || slot == 2 || slot == 4 }

  /** No line is refused and no slot is set twice. */
  predicate Accepted<S(==)>(rs: seq<Reading<S>>) {
    && (forall i :: 0 <= i < |rs| ==> !rs[i].Rejected?)
    && (forall i, j :: 0 <= i < j < |rs| && rs[i].Sets? && rs[j].Sets? ==> rs[i].slot != rs[j].slot)
  }

  predicate Seen<S(==)>(rs: seq<Reading<S>>, slot: bv8) {
    exists i :: 0 <= i < |rs| && rs[i].Sets? && rs[i].slot == slot
  }

  /** What one more line changes. */
  lemma {:induction false} AcceptedStep<S>(rs: seq<Reading<S>>, r: Reading<S>)
    ensures Accepted(rs + [r]) <==> Accepted(rs) && !r.Rejected? && (r.Sets? ==> !Seen(rs, r.slot))
  {
    var all := rs + [r];
    assert all[|rs|] == r;
    assert forall i :: 0 <= i < |rs| ==> all[i] == rs[i];
  }

  lemma {:induction false} SeenStep<S>(rs: seq<Reading<S>>, r: Reading<S>, slot: bv8)
    ensures Seen(rs + [r], slot) <==> Seen(rs, slot) || (r.Sets? && r.slot == slot)
  {
    var all := rs + [r];
    assert all[|rs|] == r;
    if Seen(rs, slot) {
      var i :| 0 <= i < |rs| && rs[i].Sets? && rs[i].slot == slot;
      assert all[i] == rs[i];
    }
  }

  lemma {:induction false} NotAcceptedStays<S>(rs: seq<Reading<S>>, more: seq<Reading<S>>)
    requires !Accepted(rs)
    ensures !Accepted(rs + more)
  {
    assert forall i :: 0 <= i < |rs| ==> (rs + more)[i] == rs[i];
  }

  /** The set of seen slots as bits. */
  ghost predicate SeenBits<S>(rs: seq<Reading<S>>, seen: bv8) {
    && (seen & 1 != 0 <==> Seen(rs, 1))
    && (seen & 2 != 0 <==> Seen(rs, 2))
    && (seen & 4 != 0 <==> Seen(rs, 4))
  }

  lemma {:induction false} SeenBitsStep<S>(rs: seq<Reading<S>>, r: Reading<S>, seen: bv8)
    requires SeenBits(rs, seen) && r.Sets? && IsSlot(r.slot)
    ensures SeenBits(rs + [r], seen | r.slot)
    ensures seen & r.slot != 0 <==> Seen(rs, r.slot)
  {
    SeenStep(rs, r, 1);
    SeenStep(rs, r, 2);
    SeenStep(rs, r, 4);
  }

  lemma {:induction false} SeenBitsSame<S>(rs: seq<Reading<S>>, r: Reading<S>, seen: bv8)
    requires SeenBits(rs, seen) && !r.Sets?
    ensures SeenBits(rs + [r], seen)
  {
    SeenStep(rs, r, 1);
    SeenStep(rs, r, 2);
    SeenStep(rs, r, 4);
  }

  /** The test and update of the seen bits at the end of each turn of a parser's loop. */
  method Note<S>(ghost rs: seq<Reading<S>>, seen: bv8, reading: Reading<S>) returns (ok: bool, seen': bv8)
    requires Accepted(rs) && SeenBits(rs, seen)
    requires reading.Sets? ==> IsSlot(reading.slot)
    ensures ok <==> Accepted(rs + [reading])
    ensures ok ==> SeenBits(rs + [reading], seen')
  {
    AcceptedStep(rs, reading);
    if reading.Rejected? {
      return false, seen;
    }
    if reading.Nothing? {
      SeenBitsSame(rs, reading, seen);
      return true, seen;
    }
    SeenBitsStep(rs, reading, seen);
    if seen & reading.slot != 0 {
      return false, seen;
    }
    return true, seen | reading.slot;
  }

  /** What distinguishes one configuration file from another: the defaults, what
      a key with its value means, and what a setting changes. */
  datatype Format<!C, !S> = Format(initial: C, interpret: RawLine -> Reading<S>, change: (C, S) -> C)
  {
    function Readings(lines: seq<string>): (rs: seq<Reading<S>>)
      ensures |rs| == |lines|
    {
      seq(|lines|, i requires 0 <= i < |lines| => interpret(ReadLine(lines[i])))
    }

    function Apply(c: C, r: Reading<S>): C {
      if r.Sets? then change(c, r.setting) else c
    }

    /** The defaults, changed by each line in turn. */
    function Settled(rs: seq<Reading<S>>): C {
      if rs == [] then initial else Apply(Settled(rs[..|rs| - 1]), rs[|rs| - 1])
    }
  }

  /** The meaning of a configuration text: nothing, if a line is refused or a
      slot is set twice, and otherwise the settled configuration. */
  function Meaning<C, S(==)>(f: Format<C, S>, text: string): Option<C> {
    var rs := f.Readings(Tokens(text, '\n'));
    if Accepted(rs) then Some(f.Settled(rs)) else None
  }

  lemma {:induction false} ReadingsStep<C, S>(f: Format<C, S>, rs: seq<Reading<S>>, i: nat)
    requires i < |rs|
    ensures rs[..i + 1] == rs[..i] + [rs[i]] && rs[..i + 1] + rs[i + 1..] == rs
    ensures f.Settled(rs[..i + 1]) == f.Apply(f.Settled(rs[..i]), rs[i])
  {
    assert rs[..i + 1][..i] == rs[..i];
  }

  /** A reading that is nothing makes no difference wherever it stands. */
  lemma {:induction false} NothingChanges<C, S>(f: Format<C, S>, a: seq<Reading<S>>, b: seq<Reading<S>>)
    ensures Accepted(a + [Nothing] + b) <==> Accepted(a + b)
    ensures f.Settled(a + [Nothing] + b) == f.Settled(a + b)
    ensures forall slot :: Seen(a + [Nothing] + b, slot) <==> Seen(a + b, slot)
  {
    var with, without := a + [Nothing] + b, a + b;
    if b == [] {
      assert with == a + [Nothing] && without == a && with[..|with| - 1] == a;
      AcceptedStep(a, Nothing);
      forall slot ensures Seen(with, slot) <==> Seen(without, slot) {
        SeenStep(a, Nothing, slot);
      }
    } else {
      var front, last := b[..|b| - 1], b[|b| - 1];
      NothingChanges(f, a, front);
      assert with == a + [Nothing] + front + [last] && without == a + front + [last];
      assert with[..|with| - 1] == a + [Nothing] + front && without[..|without| - 1] == a + front;
      AcceptedStep(a + [Nothing] + front, last);
      AcceptedStep(a + front, last);
      forall slot ensures Seen(with, slot) <==> Seen(without, slot) {
        SeenStep(a + [Nothing] + front, last, slot);
        SeenStep(a + front, last, slot);
      }
    }
  }

  lemma {:induction false} ReadingsAppend<C, S>(f: Format<C, S>, a: seq<string>, b: seq<string>)
    ensures f.Readings(a + b) == f.Readings(a) + f.Readings(b)
  {
  }

  lemma {:induction false} TokensAround(before: string, line: string, after: string)
    requires '\n' !in line
    ensures Tokens(before + ['\n'] + (line + ['\n'] + after), '\n')
            == Tokens(before, '\n') + (if line == "" then [] else [line]) + Tokens(after, '\n')
  {
    TokensAppend(before, line + ['\n'] + after, '\n');
    TokensAppend(line, after, '\n');
    TokensOfPiece(line, '\n');
  }

  lemma {:induction false} ReadingsAround<C, S>(f: Format<C, S>, a: seq<string>, line: string, b: seq<string>)
    ensures f.Readings(a + [line] + b) == f.Readings(a) + [f.interpret(ReadLine(line))] + f.Readings(b)
  {
    ReadingsAppend(f, a, [line]);
    ReadingsAppend(f, a + [line], b);
  }

  lemma {:induction false} IgnoredAmongLines<C, S>(f: Format<C, S>, a: seq<string>, line: string, b: seq<string>)
    requires f.interpret(ReadLine(line)) == Nothing
    ensures Accepted(f.Readings(a + [line] + b)) <==> Accepted(f.Readings(a + b))
    ensures f.Settled(f.Readings(a + [line] + b)) == f.Settled(f.Readings(a + b))
  {
    ReadingsAround(f, a, line, b);
    ReadingsAppend(f, a, b);
    NothingChanges(f, f.Readings(a), f.Readings(b));
  }

  lemma {:induction false} SameTokensSameMeaning<C, S>(f: Format<C, S>, text: string, other: string)
    requires Tokens(text, '\n') == Tokens(other, '\n')
    ensures Meaning(f, text) == Meaning(f, other)
  {
  }

  lemma {:induction false} IgnoredTokenChangesNothing<C, S>(f: Format<C, S>, text: string, other: string,
      a: seq<string>, line: string, b: seq<string>)
    requires Tokens(text, '\n') == a + [line] + b && Tokens(other, '\n') == a + b
    requires f.interpret(ReadLine(line)) == Nothing
    ensures Meaning(f, text) == Meaning(f, other)
  {
    IgnoredAmongLines(f, a, line, b);
  }

  lemma {:induction false} TokensWithout(before: string, after: string)
    ensures Tokens(before + ['\n'] + ([] + ['\n'] + after), '\n') == Tokens(before + ['\n'] + after, '\n')
  {
    var a := Tokens(before, '\n');
    TokensAround(before, [], after);
    TokensAppend(before, after, '\n');
    assert a + [] == a;
  }

  lemma {:induction false} IgnoredLineChangesNothing<C, S>(f: Format<C, S>, before: string, line: string,
      after: string)
    requires '\n' !in line && (line == "" || f.interpret(ReadLine(line)) == Nothing)
    ensures Meaning(f, before + ['\n'] + (line + ['\n'] + after)) == Meaning(f, before + ['\n'] + after)
  {
    var text, other := before + ['\n'] + (line + ['\n'] + after), before + ['\n'] + after;
    if line == "" {
      TokensWithout(before, after);
      SameTokensSameMeaning(f, text, other);
    } else {
      TokensAround(before, line, after);
      TokensAppend(before, after, '\n');
      IgnoredTokenChangesNothing(f, text, other, Tokens(before, '\n'), line, Tokens(after, '\n'));
    }
  }

  /** A comment or a blank line, wherever it stands, changes nothing. */
  lemma {:induction false} CommentChangesNothing<C, S>(f: Format<C, S>, before: string, space: string, comment: string,
      after: string)
    requires f.interpret(Ignored) == Nothing
    requires AllSpace(space) && (comment == "" || comment[0] == '#') && '\n' !in space + comment
    ensures Meaning(f, before + ['\n'] + (space + comment + ['\n'] + after)) == Meaning(f, before + ['\n'] + after)
  {
    CommentIsIgnored(space, comment);
    IgnoredLineChangesNothing(f, before, space + comment, after);
  }

  /** One line that is refused refuses the text. */
  lemma {:induction false} RefusedLineRefuses<C, S>(f: Format<C, S>, before: string, line: string, after: string)
    requires line != "" && '\n' !in line && f.interpret(ReadLine(line)).Rejected?
    ensures Meaning(f, before + ['\n'] + (line + ['\n'] + after)) == None
  {
    var a, b := Tokens(before, '\n'), Tokens(after, '\n');
    TokensAround(before, line, after);
    ReadingsAround(f, a, line, b);
    assert (f.Readings(a) + [f.interpret(ReadLine(line))] + f.Readings(b))[|a|].Rejected?;
  }

  /** The loop of bp_host_config_parse and bp_runtime_config_parse. */
  method Parse<C, S(==)>(f: Format<C, S>, text: string) returns (r: Option<C>)
    requires forall raw :: f.interpret(raw).Sets? ==> IsSlot(f.interpret(raw).slot)
    ensures r == Meaning(f, text)
  {
    var lines := Tokens(text, '\n');
    var config := f.initial;
    var seen: bv8 := 0;
    ghost var rs := f.Readings(lines);
    for i := 0 to |lines|
      invariant Accepted(rs[..i]) && config == f.Settled(rs[..i]) && SeenBits(rs[..i], seen)
    {
      var raw := CutLine(lines[i]);
      var reading := f.interpret(raw);
      ReadingsStep(f, rs, i);
      var ok;
      ok, seen := Note(rs[..i], seen, reading);
      if !ok {
        NotAcceptedStays(rs[..i + 1], rs[i + 1..]);
        return None;
      }
      config := f.Apply(config, reading);
    }
    assert rs[..|rs|] == rs;
    return Some(config);
  }

  // ----- What a configuration text says

  predicate HasKey(lines: seq<string>, key: string) {
    exists i :: 0 <= i < |lines| && ReadLine(lines[i]).Pair? && ReadLine(lines[i]).key == key
  }

  /** No two lines have the same key. */
  predicate KeysOnce(lines: seq<string>) {
    forall i, j :: 0 <= i < j < |lines| && ReadLine(lines[i]).Pair? && ReadLine(lines[j]).Pair? ==>
                     ReadLine(lines[i]).key != ReadLine(lines[j]).key
  }

  /** Which slot a key has. */
  datatype Keys = Keys(first: string, second: string, third: string)
  {
    predicate Distinct() { first != second && first != third && second != third }

    predicate Slot(key: string, slot: bv8) {
      (key == first && slot == 1) || (key == second && slot == 2) || (key == third && slot == 4)
    }
  }

  /** A line is ignored, refused, or sets the slot of its key. */
  predicate Keyed<S(==)>(keys: Keys, raw: RawLine, r: Reading<S>) {
    match r
    case Nothing => raw.Ignored?
    case Rejected => true
    case Sets(slot, _) => raw.Pair? && keys.Slot(raw.key, slot)
  }

  /** Every reading is that of its line, and none is a refusal. */
  predicate AllKeyed<S(==)>(keys: Keys, lines: seq<string>, rs: seq<Reading<S>>) {
    |rs| == |lines| && forall i :: 0 <= i < |rs| ==> Keyed(keys, ReadLine(lines[i]), rs[i]) && !rs[i].Rejected?
  }

  lemma {:induction false} SlotIsKey<S>(keys: Keys, raw: RawLine, r: Reading<S>, key: string, slot: bv8)
    requires keys.Distinct() && Keyed(keys, raw, r) && !r.Rejected? && keys.Slot(key, slot)
    ensures r.Sets? && r.slot == slot <==> raw.Pair? && raw.key == key
  {
  }

  lemma {:induction false} SeenIsKey<S>(keys: Keys, lines: seq<string>, rs: seq<Reading<S>>, key: string, slot: bv8)
    requires keys.Distinct() && AllKeyed(keys, lines, rs) && keys.Slot(key, slot)
    ensures Seen(rs, slot) <==> HasKey(lines, key)
  {
    forall i | 0 <= i < |lines|
      ensures rs[i].Sets? && rs[i].slot == slot <==> ReadLine(lines[i]).Pair? && ReadLine(lines[i]).key == key
    {
      SlotIsKey(keys, ReadLine(lines[i]), rs[i], key, slot);
    }
  }

  /** Slots are set twice exactly if keys stand twice. */
  lemma {:induction false} AcceptedIsOnce<S>(keys: Keys, lines: seq<string>, rs: seq<Reading<S>>)
    requires keys.Distinct() && AllKeyed(keys, lines, rs)
    ensures Accepted(rs) <==> KeysOnce(lines)
  {
    forall i | 0 <= i < |lines|
      ensures rs[i].Sets? <==> ReadLine(lines[i]).Pair?
      ensures rs[i].Sets? ==> keys.Slot(ReadLine(lines[i]).key, rs[i].slot)
    {
    }
    if KeysOnce(lines) {
      forall i, j | 0 <= i < j < |rs| && rs[i].Sets? && rs[j].Sets? ensures rs[i].slot != rs[j].slot {
        assert ReadLine(lines[i]).key != ReadLine(lines[j]).key;
      }
    }
    if Accepted(rs) {
      forall i, j | 0 <= i < j < |lines| && ReadLine(lines[i]).Pair? && ReadLine(lines[j]).Pair?
        ensures ReadLine(lines[i]).key != ReadLine(lines[j]).key
      {
        assert rs[i].slot != rs[j].slot;
      }
    }
  }

  // ----- Runtime configuration

  datatype RuntimeSetting = SetVersion | SetMode(mode: EntryMode) | SetEntry(entry: string)

  function InterpretRuntime(raw: RawLine): (r: Reading<RuntimeSetting>)
    ensures r.Sets? ==> IsSlot(r.slot)
    ensures r.Sets? && r.setting.SetEntry? ==> raw.Pair? && r.setting.entry == raw.value && ValidEntry(raw.value)
  {
    match raw
    case Ignored => Nothing
    case NotKeyValue => Rejected
    case Pair(key, value) =>
      if key == "version" then
        if ParseUint(value, UintMax) == Some(ConfigVersion) then Sets(1, SetVersion) else Rejected
      else if key == "entryMode" then
        if value == "supervised" then Sets(2, SetMode(Supervised))
        else if value == "handoff" then Sets(2, SetMode(Handoff))
        else Rejected
      else if key == "entry" then
        if ValidEntry(value) then Sets(4, SetEntry(value)) else Rejected
      else Rejected
  }

  function ChangeRuntime(c: RuntimeConfig, s: RuntimeSetting): RuntimeConfig {
    match s
    case SetVersion => c.(version := ConfigVersion)
    case SetMode(m) => c.(entryMode := m)
    case SetEntry(e) => c.(entry := e)
  }

  function RuntimeFormat(): Format<RuntimeConfig, RuntimeSetting> {
    Format(RuntimeDefault, InterpretRuntime, ChangeRuntime)
  }

  function ParsedRuntime(text: string): Option<RuntimeConfig> { Meaning(RuntimeFormat(), text) }

  /** bp_runtime_config_parse */
  method ParseRuntime(text: string) returns (r: Option<RuntimeConfig>)
    ensures r == ParsedRuntime(text)
  {
    r := Parse(RuntimeFormat(), text);
  }

  /** A comment changes no configuration. */
  lemma {:induction false} CommentsAreFree(before: string, space: string, comment: string, after: string)
    requires AllSpace(space) && (comment == "" || comment[0] == '#') && '\n' !in space + comment
    ensures ParsedRuntime(before + ['\n'] + (space + comment + ['\n'] + after))
            == ParsedRuntime(before + ['\n'] + after)
    ensures ParsedHost(before + ['\n'] + (space + comment + ['\n'] + after)) == ParsedHost(before + ['\n'] + after)
  {
    CommentChangesNothing(RuntimeFormat(), before, space, comment, after);
    CommentChangesNothing(HostFormat(), before, space, comment, after);
  }

  /** A line that says of a runtime configuration what is true of it. */
  predicate TrueOfRuntime(raw: RawLine, c: RuntimeConfig) {
    match raw
    case Ignored => true
    case NotKeyValue => false
    case Pair(key, value) =>
      || (key == "version" && ParseUint(value, 0xffff_ffff) == Some(1))
      || (key == "entryMode" && value == match c.entryMode
                                         case Supervised => "supervised"
                                         case Handoff => "handoff")
      || (key == "entry" && value == c.entry && ValidEntry(value))
  }

  predicate SaysRuntime(lines: seq<string>, c: RuntimeConfig) {
    && (forall l :: l in lines ==> TrueOfRuntime(ReadLine(l), c)) && KeysOnce(lines)
    && c.version == 1 && (!HasKey(lines, "entryMode") ==> c.entryMode == Supervised)
    && (!HasKey(lines, "entry") ==> c.entry == "/entry.sh")
  }

  predicate RuntimeAgrees(r: Reading<RuntimeSetting>, c: RuntimeConfig) {
    match r
    case Nothing => true
    case Rejected => false
    case Sets(slot, SetVersion) => slot == 1
    case Sets(slot, SetMode(m)) => slot == 2 && m == c.entryMode
    case Sets(slot, SetEntry(e)) => slot == 4 && e == c.entry
  }

  /** A reading that some configuration agrees with. */
  predicate RuntimeSlotted(r: Reading<RuntimeSetting>) {
    match r
    case Nothing => true
    case Rejected => false
    case Sets(slot, s) => slot == if s.SetVersion? then 1 else if s.SetMode? then 2 else 4
  }

  const RuntimeKeys := Keys("version", "entryMode", "entry")

  lemma {:induction false} RuntimeReadingIff(raw: RawLine, c: RuntimeConfig)
    ensures RuntimeAgrees(InterpretRuntime(raw), c) <==> TrueOfRuntime(raw, c)
    ensures !InterpretRuntime(raw).Rejected? ==> RuntimeSlotted(InterpretRuntime(raw))
    ensures Keyed(RuntimeKeys, raw, InterpretRuntime(raw)) && RuntimeKeys.Distinct()
  {
    assert |"entryMode"| == 9 && |"version"| == 7 && |"entry"| == 5 && |"handoff"| == 7 && |"supervised"| == 10;
  }

  /** What the readings and the defaults say. */
  predicate RuntimeStands(rs: seq<Reading<RuntimeSetting>>, c: RuntimeConfig) {
    && (forall i :: 0 <= i < |rs| ==> RuntimeAgrees(rs[i], c)) && c.version == 1
    && (!Seen(rs, 2) ==> c.entryMode == Supervised) && (!Seen(rs, 4) ==> c.entry == "/entry.sh")
  }

  lemma {:induction false} RuntimeStandsStep(front: seq<Reading<RuntimeSetting>>, last: Reading<RuntimeSetting>,
      c: RuntimeConfig)
    requires RuntimeStands(front, c) && Accepted(front + [last]) && RuntimeSlotted(last)
    ensures RuntimeStands(front + [last], RuntimeFormat().Apply(c, last))
  {
    AcceptedStep(front, last);
    SeenStep(front, last, 2);
    SeenStep(front, last, 4);
  }

  /** The settled configuration is what the readings and the defaults say. */
  lemma {:induction false} RuntimeSettles(rs: seq<Reading<RuntimeSetting>>)
    requires Accepted(rs) && forall i :: 0 <= i < |rs| ==> RuntimeSlotted(rs[i])
    ensures RuntimeStands(rs, RuntimeFormat().Settled(rs))
  {
    if rs != [] {
      var front, last := rs[..|rs| - 1], rs[|rs| - 1];
      assert rs == front + [last];
      AcceptedStep(front, last);
      RuntimeSettles(front);
      RuntimeStandsStep(front, last, RuntimeFormat().Settled(front));
    }
  }

  /** Only one configuration agrees with all readings and the defaults. */
  lemma {:induction false} OneRuntimeAgrees(rs: seq<Reading<RuntimeSetting>>, c: RuntimeConfig)
    requires Accepted(rs) && forall i :: 0 <= i < |rs| ==> RuntimeSlotted(rs[i])
    ensures RuntimeFormat().Settled(rs) == c <==> RuntimeStands(rs, c)
  {
    RuntimeSettles(rs);
    var d := RuntimeFormat().Settled(rs);
    if Seen(rs, 2) {
      var i :| 0 <= i < |rs| && rs[i].Sets? && rs[i].slot == 2;
      assert RuntimeAgrees(rs[i], d);
    }
    if Seen(rs, 4) {
      var i :| 0 <= i < |rs| && rs[i].Sets? && rs[i].slot == 4;
      assert RuntimeAgrees(rs[i], d);
    }
  }

  /** A text is a configuration exactly if every line is ignored or says what is true
      of it, no key stands twice, and what has no line is as in the defaults. */
  lemma {:induction false} ParsedRuntimeIff(text: string, c: RuntimeConfig)
    ensures ParsedRuntime(text) == Some(c) <==> SaysRuntime(Tokens(text, '\n'), c)
  {
    var lines := Tokens(text, '\n');
    var rs := RuntimeFormat().Readings(lines);
    forall i | 0 <= i < |lines|
      ensures RuntimeAgrees(rs[i], c) <==> TrueOfRuntime(ReadLine(lines[i]), c)
      ensures Keyed(RuntimeKeys, ReadLine(lines[i]), rs[i])
      ensures !rs[i].Rejected? ==> RuntimeSlotted(rs[i])
    {
      RuntimeReadingIff(ReadLine(lines[i]), c);
    }
    RuntimeReadingIff(Ignored, c);
    assert (forall i :: 0 <= i < |rs| ==> RuntimeAgrees(rs[i], c)) <==>
           (forall l :: l in lines ==> TrueOfRuntime(ReadLine(l), c));
    if forall i :: 0 <= i < |rs| ==> !rs[i].Rejected? {
      AcceptedIsOnce(RuntimeKeys, lines, rs);
      SeenIsKey(RuntimeKeys, lines, rs, "entryMode", 2);
      SeenIsKey(RuntimeKeys, lines, rs, "entry", 4);
      if Accepted(rs) {
        OneRuntimeAgrees(rs, c);
      }
    } else {
      var i :| 0 <= i < |rs| && rs[i].Rejected?;
      assert !RuntimeAgrees(rs[i], c);
    }
  }

  // ----- Formatting a runtime configuration

  /** The lines, each ended by a line break. */
  function Lines(lines: seq<string>): string {
    if lines == [] then "" else lines[0] + ['\n'] + Lines(lines[1..])
  }

  lemma {:induction false} SplitOfLines(lines: seq<string>)
    requires forall l :: l in lines ==> '\n' !in l
    ensures Split(Lines(lines), '\n') == lines + [""]
  {
    if lines == [] {
      assert Split("", '\n') == [""];
    } else {
      var first, rest := lines[0], lines[1..];
      assert first in lines;
      assert forall l :: l in rest ==> l in lines;
      SplitOfLines(rest);
      SplitFirst(first, '\n', Lines(rest));
      Rejoin(lines);
    }
  }

  lemma {:induction false} Rejoin(lines: seq<string>)
    requires lines != []
    ensures [lines[0]] + (lines[1..] + [""]) == lines + [""]
  {
  }

  lemma {:induction false} TokensOfLines(lines: seq<string>)
    requires forall l :: l in lines ==> l != "" && '\n' !in l
    ensures Tokens(Lines(lines), '\n') == lines
  {
    SplitOfLines(lines);
    NonEmptyOfAppend(lines, [""]);
    NonEmptyOfNonEmpty(lines);
  }

  function RuntimeText(c: RuntimeConfig): string {
    Lines(["version" + ['='] + Decimal(c.version),
           "entryMode" + ['='] + ModeName(c.entryMode),
           "entry" + ['='] + c.entry])
  }

  /** bp_runtime_config_format into a buffer of the given size. */
  function FormatRuntime(c: RuntimeConfig, size: nat): Option<string> {
    if c.version != ConfigVersion || !ValidEntry(c.entry) then None
    else if |RuntimeText(c)| >= size then None
    else Some(RuntimeText(c))
  }

  /** The entry survives being a line of its own: no line break inside it, no
      white space at its end (at its start there is a slash). */
  predicate CleanEntry(entry: string) {
    ValidEntry(entry) && '\n' !in entry && !IsSpace(entry[|entry| - 1])
  }

  /** The two buffers the program formats into hold any valid configuration. */
  lemma {:induction false} RuntimeFits(c: RuntimeConfig)
    requires c.version == ConfigVersion && ValidEntry(c.entry)
    ensures FormatRuntime(c, PathCapacity + 64) == Some(RuntimeText(c))
  {
    LengthOfLines("version" + ['='] + Decimal(c.version), "entryMode" + ['='] + ModeName(c.entryMode),
                  "entry" + ['='] + c.entry);
    assert |Decimal(1)| == 1;
  }

  lemma {:induction false} LengthOfLines(a: string, b: string, c: string)
    ensures |Lines([a, b, c])| == |a| + |b| + |c| + 3
  {
    assert [a, b, c][1..] == [b, c] && [b, c][1..] == [c] && [c][1..] == [];
    assert Lines([c]) == c + ['\n'] + Lines([]);
    assert Lines([b, c]) == b + ['\n'] + Lines([c]);
    assert Lines([a, b, c]) == a + ['\n'] + Lines([b, c]);
  }

  /** A word that can stand for a key or a value on a line. */
  predicate PlainWord(w: string) {
    w != "" && Trimmed(w) && w[0] != '#' && '=' !in w && '\n' !in w
  }

  lemma {:induction false} LineOfWords(key: string, value: string)
    requires PlainWord(key) && value != "" && Trimmed(value) && '\n' !in value
    ensures ReadLine(key + ['='] + value) == Pair(key, value)
    ensures '\n' !in key + ['='] + value && key + ['='] + value != ""
  {
    ReadLineOfPair(key, value);
  }

  lemma {:induction false} KeysArePlain()
    ensures PlainWord("version") && PlainWord("entryMode") && PlainWord("entry")
  {
  }

  lemma {:induction false} VersionLineRead()
    ensures InterpretRuntime(ReadLine("version" + ['='] + Decimal(1))) == Sets(1, SetVersion)
    ensures '\n' !in "version" + ['='] + Decimal(1)
  {
    KeysArePlain();
    assert Decimal(1) == ['1'];
    LineOfWords("version", Decimal(1));
    ParseUintOfDecimal(1, UintMax);
  }

  lemma {:induction false} ModesArePlain(m: EntryMode)
    ensures PlainWord(ModeName(m))
  {
  }

  lemma {:induction false} ModePairRead(m: EntryMode)
    ensures InterpretRuntime(Pair("entryMode", ModeName(m))) == Sets(2, SetMode(m))
  {
    assert "entryMode" != "version" by {
      assert |"entryMode"| == 9 && |"version"| == 7;
    }
    assert "handoff" != "supervised" by {
      assert |"handoff"| == 7 && |"supervised"| == 10;
    }
  }

  lemma {:induction false} ModeLineRead(m: EntryMode)
    ensures InterpretRuntime(ReadLine("entryMode" + ['='] + ModeName(m))) == Sets(2, SetMode(m))
    ensures '\n' !in "entryMode" + ['='] + ModeName(m)
  {
    KeysArePlain();
    ModesArePlain(m);
    LineOfWords("entryMode", ModeName(m));
    ModePairRead(m);
  }

  lemma {:induction false} EntryPairRead(entry: string)
    requires ValidEntry(entry)
    ensures InterpretRuntime(Pair("entry", entry)) == Sets(4, SetEntry(entry))
  {
    assert |"entry"| == 5 && |"entryMode"| == 9 && |"version"| == 7;
  }

  lemma {:induction false} EntryLineRead(entry: string)
    requires CleanEntry(entry)
    ensures InterpretRuntime(ReadLine("entry" + ['='] + entry)) == Sets(4, SetEntry(entry))
    ensures '\n' !in "entry" + ['='] + entry
  {
    KeysArePlain();
    LineOfWords("entry", entry);
    EntryPairRead(entry);
  }

  lemma {:induction false} CleanRuntimeRoundTrip(c: RuntimeConfig)
    requires c.version == ConfigVersion && CleanEntry(c.entry)
    ensures ParsedRuntime(RuntimeText(c)) == Some(c)
  {
    VersionLineRead();
    ModeLineRead(c.entryMode);
    EntryLineRead(c.entry);
    RuntimeFromLines(c, "version" + ['='] + Decimal(c.version), "entryMode" + ['='] + ModeName(c.entryMode),
                     "entry" + ['='] + c.entry);
  }

  lemma {:induction false} RuntimeFromLines(c: RuntimeConfig, v: string, m: string, e: string)
    requires c.version == ConfigVersion
    requires v != "" && m != "" && e != "" && '\n' !in v && '\n' !in m && '\n' !in e
    requires InterpretRuntime(ReadLine(v)) == Sets(1, SetVersion)
    requires InterpretRuntime(ReadLine(m)) == Sets(2, SetMode(c.entryMode))
    requires InterpretRuntime(ReadLine(e)) == Sets(4, SetEntry(c.entry))
    ensures ParsedRuntime(Lines([v, m, e])) == Some(c)
  {
    var f := RuntimeFormat();
    MeaningOfThree(f, v, m, e, Sets(1, SetVersion), Sets(2, SetMode(c.entryMode)), Sets(4, SetEntry(c.entry)));
  }

  lemma {:induction false} MeaningOfThree<C, S>(f: Format<C, S>, a: string, b: string, c: string, ra: Reading<S>,
      rb: Reading<S>, rc: Reading<S>)
    requires a != "" && b != "" && c != "" && '\n' !in a && '\n' !in b && '\n' !in c
    requires f.interpret(ReadLine(a)) == ra && f.interpret(ReadLine(b)) == rb && f.interpret(ReadLine(c)) == rc
    requires ra.Sets? && rb.Sets? && rc.Sets? && ra.slot != rb.slot && rb.slot != rc.slot && ra.slot != rc.slot
    ensures Meaning(f, Lines([a, b, c]))
            == Some(f.change(f.change(f.change(f.initial, ra.setting), rb.setting), rc.setting))
  {
    TokensOfThree(a, b, c);
    var rs := [ra, rb, rc];
    assert f.Readings([a, b, c]) == rs;
    assert Accepted(rs);
    assert rs[..2] == [ra, rb] && rs[..2][..1] == [ra] && rs[..2][..1][..0] == [];
    assert f.Settled([ra]) == f.change(f.initial, ra.setting);
    assert f.Settled([ra, rb]) == f.change(f.Settled([ra]), rb.setting);
  }

  lemma {:induction false} TokensOfThree(a: string, b: string, c: string)
    requires a != "" && b != "" && c != "" && '\n' !in a && '\n' !in b && '\n' !in c
    ensures Tokens(Lines([a, b, c]), '\n') == [a, b, c]
  {
    TokensOfLines([a, b, c]);
  }

  // ----- What parsing can produce

  predicate SetsCleanEntry(r: Reading<RuntimeSetting>) {
    r.Sets? && r.setting.SetEntry? ==> CleanEntry(r.setting.entry)
  }

  lemma {:induction false} SettledIsClean(rs: seq<Reading<RuntimeSetting>>)
    requires forall r :: r in rs ==> SetsCleanEntry(r)
    ensures var c := RuntimeFormat().Settled(rs); CleanEntry(c.entry) && c.version == ConfigVersion
  {
    if rs == [] {
      DefaultEntryIsClean();
    } else {
      assert SetsCleanEntry(rs[|rs| - 1]);
      assert forall r :: r in rs[..|rs| - 1] ==> r in rs;
      SettledIsClean(rs[..|rs| - 1]);
    }
  }

  lemma {:induction false} DefaultEntryIsClean()
    ensures CleanEntry(RuntimeDefault.entry)
  {
    var name := "entry.sh";
    assert |name| == 8 && '/' !in name;
    SingleComponentIsValid(name);
    assert RuntimeDefault.entry == ['/'] + name;
  }

  lemma {:induction false} SingleComponentIsValid(name: string)
    requires '/' !in name && PlainComponent(name) && |name| < PathCapacity - 1
    ensures ValidEntry(['/'] + name)
  {
    assert (['/'] + name)[1..] == name;
  }

  lemma {:induction false} ReadLineYieldsTrimmed(line: string)
    requires ReadLine(line).Pair?
    ensures Trimmed(ReadLine(line).value)
    ensures forall c :: c in ReadLine(line).value ==> c in line
  {
    var t := Trim(line);
    TrimYieldsTrimmed(line);
    TrimYieldsTrimmed(t[IndexOf(t, '=') + 1..]);
  }

  lemma {:induction false} EntryReadingIsClean(line: string)
    requires '\n' !in line
    ensures SetsCleanEntry(InterpretRuntime(ReadLine(line)))
  {
    if ReadLine(line).Pair? {
      ReadLineYieldsTrimmed(line);
    }
  }

  lemma {:induction false} EntryReadingsAreClean(lines: seq<string>)
    requires forall l :: l in lines ==> '\n' !in l
    ensures forall r :: r in RuntimeFormat().Readings(lines) ==> SetsCleanEntry(r)
  {
    forall i | 0 <= i < |lines| ensures SetsCleanEntry(RuntimeFormat().Readings(lines)[i]) {
      assert lines[i] in lines;
      EntryReadingIsClean(lines[i]);
    }
  }

  /** Whatever text is parsed, the entry that comes out is clean. */
  lemma {:induction false} ParsedIsClean(text: string)
    ensures ParsedRuntime(text).Some? ==>
              var c := ParsedRuntime(text).value; c.version == ConfigVersion && CleanEntry(c.entry)
  {
    var lines := Tokens(text, '\n');
    EntryReadingsAreClean(lines);
    SettledIsClean(RuntimeFormat().Readings(lines));
  }

  /** Formatting then parsing gives the configuration back exactly when its entry
      is clean; the validity test alone lets line breaks and trailing blanks by. */
  lemma {:induction false} RuntimeRoundTrip(c: RuntimeConfig)
    requires c.version == ConfigVersion && ValidEntry(c.entry)
    ensures ParsedRuntime(RuntimeText(c)) == Some(c)
            <==> '\n' !in c.entry && !IsSpace(c.entry[|c.entry| - 1])
  {
    if CleanEntry(c.entry) {
      CleanRuntimeRoundTrip(c);
    } else {
      ParsedIsClean(RuntimeText(c));
    }
  }

  /** Every configuration the parser yields, formats, and parses back to itself. */
  lemma {:induction false} ParsedRoundTrip(text: string)
    requires ParsedRuntime(text).Some?
    ensures var c := ParsedRuntime(text).value;
            FormatRuntime(c, PathCapacity + 64).Some?
            && ParsedRuntime(FormatRuntime(c, PathCapacity + 64).value) == Some(c)
  {
    var c := ParsedRuntime(text).value;
    ParsedIsClean(text);
    RuntimeFits(c);
    CleanRuntimeRoundTrip(c);
  }

  // ----- Entry path prompts

  /** What read_answer gets from the terminal: a line that did not fit the
      buffer, or a line without its line break. */
  datatype Answer = TooLong | Typed(text: string)

  predicate TerminalAnswer(a: Answer) {
    a.Typed? ==> '\n' !in a.text
  }

  /** The entry an answer asks for; an empty one keeps the entry there is. */
  function AnswerEntry(current: string, a: Answer): Option<string> {
    if a.TooLong? || |Trim(a.text)| >= PathCapacity then None
    else
      var entry := if Trim(a.text) == "" then current else Trim(a.text);
      if ValidEntry(entry) then Some(entry) else None
  }

  /** An answer of white space keeps the entry, and any other is taken as it stands. */
  lemma {:induction false} AnswerIs(current: string, space: string, entry: string, more: string)
    requires AllSpace(space) && AllSpace(more) && Trimmed(entry) && |entry| < 4096
    ensures AnswerEntry(current, Typed(space + (entry + more)))
            == var e := if entry == "" then current else entry; if ValidEntry(e) then Some(e) else None
  {
    TrimWrapped(space, entry, more);
  }

  /** The entry of the first answer that is accepted. */
  function FirstAccepted(current: string, answers: seq<Answer>): Option<string> {
    if answers == [] then None
    else if AnswerEntry(current, answers[0]).Some? then AnswerEntry(current, answers[0])
    else FirstAccepted(current, answers[1..])
  }

  /** prompt_entry_path: asks until an answer formats. */
  method PromptEntryPath(config: RuntimeConfig, answers: seq<Answer>) returns (r: Option<RuntimeConfig>)
    requires config.version == ConfigVersion
    ensures r == match FirstAccepted(config.entry, answers)
                 case None => None
                 case Some(entry) => Some(config.(entry := entry))
  {
    for i := 0 to |answers|
      invariant FirstAccepted(config.entry, answers) == FirstAccepted(config.entry, answers[i..])
    {
      assert answers[i..][1..] == answers[i + 1..];
      if answers[i].TooLong? {
        continue;
      }
      var answer := TrimInPlace(answers[i].text);
      if |answer| >= PathCapacity {
        continue;
      }
      var candidate := if answer != "" then config.(entry := answer) else config;
      var valid := ValidateEntry(candidate.entry);
      if !valid {
        continue;
      }
      RuntimeFits(candidate);
      assert FormatRuntime(candidate, PathCapacity + 64).Some?;
      return Some(candidate);
    }
    return None;
  }

  /** A prompt that starts from a clean entry ends with one, so what it saves is
      what the recovery system will read. */
  lemma {:induction false} PromptRoundTrip(config: RuntimeConfig, answers: seq<Answer>)
    requires config.version == ConfigVersion && CleanEntry(config.entry)
    requires forall a :: a in answers ==> TerminalAnswer(a)
    requires FirstAccepted(config.entry, answers).Some?
    ensures var c := config.(entry := FirstAccepted(config.entry, answers).value);
            CleanEntry(c.entry) && ParsedRuntime(RuntimeText(c)) == Some(c)
  {
    var a := answers[0];
    assert TerminalAnswer(a);
    if AnswerEntry(config.entry, a).Some? {
      TrimYieldsTrimmed(a.text);
      CleanRuntimeRoundTrip(config.(entry := FirstAccepted(config.entry, answers).value));
    } else {
      assert forall b :: b in answers[1..] ==> b in answers;
      PromptRoundTrip(config, answers[1..]);
    }
  }

  // ----- Host configuration

  datatype HostSetting = SetHostVersion | SetTimeout(timeout: nat) | SetDefault(choice: BootChoice)

  function InterpretHost(raw: RawLine): (r: Reading<HostSetting>)
    ensures r.Sets? ==> IsSlot(r.slot)
    ensures r.Sets? && r.setting.SetTimeout? ==> r.setting.timeout <= MaxTimeout
  {
    match raw
    case Ignored => Nothing
    case NotKeyValue => Rejected
    case Pair(key, value) =>
      if key == "version" then
        if ParseUint(value, UintMax) == Some(ConfigVersion) then Sets(1, SetHostVersion) else Rejected
      else if key == "timeout" then
        match ParseUint(value, MaxTimeout) {
          case Some(n) => Sets(2, SetTimeout(n))
          case None => Rejected
        }
      else if key == "default" then
        match ParseChoice(value) {
          case Some(c) => Sets(4, SetDefault(c))
          case None => Rejected
        }
      else Rejected
  }

  function ChangeHost(c: HostConfig, s: HostSetting): HostConfig {
    match s
    case SetHostVersion => c.(version := ConfigVersion)
    case SetTimeout(n) => c.(timeout := n)
    case SetDefault(d) => c.(defaultChoice := d)
  }

  function HostFormat(): Format<HostConfig, HostSetting> {
    Format(HostDefault, InterpretHost, ChangeHost)
  }

  function ParsedHost(text: string): Option<HostConfig> { Meaning(HostFormat(), text) }

  /** bp_host_config_parse */
  method ParseHost(text: string) returns (r: Option<HostConfig>)
    ensures r == ParsedHost(text)
  {
    r := Parse(HostFormat(), text);
  }

  /** A line that says of a host configuration what is true of it. */
  predicate TrueOfHost(raw: RawLine, c: HostConfig) {
    match raw
    case Ignored => true
    case NotKeyValue => false
    case Pair(key, value) =>
      || (key == "version" && ParseUint(value, 0xffff_ffff) == Some(1))
      || (key == "timeout" && ParseUint(value, 3600) == Some(c.timeout))
      || (key == "default" && value == match c.defaultChoice
                                       case Normal => "normal"
                                       case Shell => "shell"
                                       case Poweroff => "poweroff")
  }

  predicate SaysHost(lines: seq<string>, c: HostConfig) {
    && (forall l :: l in lines ==> TrueOfHost(ReadLine(l), c)) && KeysOnce(lines)
    && c.version == 1 && (!HasKey(lines, "timeout") ==> c.timeout == 5)
    && (!HasKey(lines, "default") ==> c.defaultChoice == Normal)
  }

  predicate HostAgrees(r: Reading<HostSetting>, c: HostConfig) {
    match r
    case Nothing => true
    case Rejected => false
    case Sets(slot, SetHostVersion) => slot == 1
    case Sets(slot, SetTimeout(n)) => slot == 2 && n == c.timeout
    case Sets(slot, SetDefault(d)) => slot == 4 && d == c.defaultChoice
  }

  /** A reading that some configuration agrees with. */
  predicate HostSlotted(r: Reading<HostSetting>) {
    match r
    case Nothing => true
    case Rejected => false
    case Sets(slot, s) => slot == if s.SetHostVersion? then 1 else if s.SetTimeout? then 2 else 4
  }

  const HostKeys := Keys("version", "timeout", "default")

  lemma {:induction false} ChoiceIff(text: string, c: BootChoice)
    ensures ParseChoice(text) == Some(c)
            <==> text == match c
                         case Normal => "normal"
                         case Shell => "shell"
                         case Poweroff => "poweroff"
  {
    assert |"normal"| == 6 && |"shell"| == 5 && |"poweroff"| == 8;
  }

  lemma {:induction false} HostReadingIff(raw: RawLine, c: HostConfig)
    ensures HostAgrees(InterpretHost(raw), c) <==> TrueOfHost(raw, c)
    ensures !InterpretHost(raw).Rejected? ==> HostSlotted(InterpretHost(raw))
    ensures Keyed(HostKeys, raw, InterpretHost(raw)) && HostKeys.Distinct()
  {
    assert "default"[0] == 'd' && "version"[0] == 'v' && "timeout"[0] == 't';
    if raw.Pair? {
      ChoiceIff(raw.value, c.defaultChoice);
    }
  }

  /** What the readings and the defaults say. */
  predicate HostStands(rs: seq<Reading<HostSetting>>, c: HostConfig) {
    && (forall i :: 0 <= i < |rs| ==> HostAgrees(rs[i], c)) && c.version == 1
    && (!Seen(rs, 2) ==> c.timeout == 5) && (!Seen(rs, 4) ==> c.defaultChoice == Normal)
  }

  lemma {:induction false} HostStandsStep(front: seq<Reading<HostSetting>>, last: Reading<HostSetting>,
      c: HostConfig)
    requires HostStands(front, c) && Accepted(front + [last]) && HostSlotted(last)
    ensures HostStands(front + [last], HostFormat().Apply(c, last))
  {
    AcceptedStep(front, last);
    SeenStep(front, last, 2);
    SeenStep(front, last, 4);
  }

  /** The settled configuration is what the readings and the defaults say. */
  lemma {:induction false} HostSettles(rs: seq<Reading<HostSetting>>)
    requires Accepted(rs) && forall i :: 0 <= i < |rs| ==> HostSlotted(rs[i])
    ensures HostStands(rs, HostFormat().Settled(rs))
  {
    if rs != [] {
      var front, last := rs[..|rs| - 1], rs[|rs| - 1];
      assert rs == front + [last];
      AcceptedStep(front, last);
      HostSettles(front);
      HostStandsStep(front, last, HostFormat().Settled(front));
    }
  }

  /** Only one configuration agrees with all readings and the defaults. */
  lemma {:induction false} OneHostAgrees(rs: seq<Reading<HostSetting>>, c: HostConfig)
    requires Accepted(rs) && forall i :: 0 <= i < |rs| ==> HostSlotted(rs[i])
    ensures HostFormat().Settled(rs) == c <==> HostStands(rs, c)
  {
    HostSettles(rs);
    var d := HostFormat().Settled(rs);
    if Seen(rs, 2) {
      var i :| 0 <= i < |rs| && rs[i].Sets? && rs[i].slot == 2;
      assert HostAgrees(rs[i], d);
    }
    if Seen(rs, 4) {
      var i :| 0 <= i < |rs| && rs[i].Sets? && rs[i].slot == 4;
      assert HostAgrees(rs[i], d);
    }
  }

  /** The same for host configurations. */
  lemma {:induction false} ParsedHostIff(text: string, c: HostConfig)
    ensures ParsedHost(text) == Some(c) <==> SaysHost(Tokens(text, '\n'), c)
  {
    var lines := Tokens(text, '\n');
    var rs := HostFormat().Readings(lines);
    forall i | 0 <= i < |lines|
      ensures HostAgrees(rs[i], c) <==> TrueOfHost(ReadLine(lines[i]), c)
      ensures Keyed(HostKeys, ReadLine(lines[i]), rs[i])
      ensures !rs[i].Rejected? ==> HostSlotted(rs[i])
    {
      HostReadingIff(ReadLine(lines[i]), c);
    }
    HostReadingIff(Ignored, c);
    assert (forall i :: 0 <= i < |rs| ==> HostAgrees(rs[i], c)) <==>
           (forall l :: l in lines ==> TrueOfHost(ReadLine(l), c));
    if forall i :: 0 <= i < |rs| ==> !rs[i].Rejected? {
      AcceptedIsOnce(HostKeys, lines, rs);
      SeenIsKey(HostKeys, lines, rs, "timeout", 2);
      SeenIsKey(HostKeys, lines, rs, "default", 4);
      if Accepted(rs) {
        OneHostAgrees(rs, c);
      }
    } else {
      var i :| 0 <= i < |rs| && rs[i].Rejected?;
      assert !HostAgrees(rs[i], c);
    }
  }

  function HostText(c: HostConfig): string {
    Lines(["version" + ['='] + Decimal(c.version),
           "timeout" + ['='] + Decimal(c.timeout),
           "default" + ['='] + ChoiceName(c.defaultChoice)])
  }

  /** bp_host_config_format into a buffer of the given size. */
  function FormatHost(c: HostConfig, size: nat): Option<string> {
    if |HostText(c)| >= size then None else Some(HostText(c))
  }

  lemma {:induction false} FourDigits(n: nat)
    requires n < 10000
    ensures |Decimal(n)| <= 4
  {
    var tens, hundreds, thousands := n / 10, n / 10 / 10, n / 10 / 10 / 10;
    assert |Decimal(thousands)| <= 1;
    assert |Decimal(hundreds)| <= 2;
    assert |Decimal(tens)| <= 3;
  }

  /** The buffer the program formats into holds any configuration in range. */
  lemma {:induction false} HostFits(c: HostConfig)
    requires c.version == ConfigVersion && c.timeout <= MaxTimeout
    ensures FormatHost(c, 256) == Some(HostText(c))
  {
    LengthOfLines("version" + ['='] + Decimal(c.version), "timeout" + ['='] + Decimal(c.timeout),
                  "default" + ['='] + ChoiceName(c.defaultChoice));
    FourDigits(c.timeout);
    FourDigits(c.version);
    assert |ChoiceName(c.defaultChoice)| <= 8;
  }

  lemma {:induction false} DigitsArePlain(n: nat)
    ensures PlainWord(Decimal(n))
  {
    var s := Decimal(n);
    forall i | 0 <= i < |s| ensures !IsSpace(s[i]) && s[i] != '=' && s[i] != '#' {
      assert IsDigit(s[i], false);
    }
  }

  lemma {:induction false} HostKeysArePlain()
    ensures PlainWord("version") && PlainWord("timeout") && PlainWord("default")
  {
  }

  lemma {:induction false} HostVersionRead()
    ensures InterpretHost(ReadLine("version" + ['='] + Decimal(1))) == Sets(1, SetHostVersion)
    ensures '\n' !in "version" + ['='] + Decimal(1)
  {
    HostKeysArePlain();
    DigitsArePlain(1);
    LineOfWords("version", Decimal(1));
    ParseUintOfDecimal(1, UintMax);
  }

  lemma {:induction false} TimeoutPairRead(n: nat)
    requires n <= MaxTimeout
    ensures InterpretHost(Pair("timeout", Decimal(n))) == Sets(2, SetTimeout(n))
  {
    ParseUintOfDecimal(n, MaxTimeout);
    assert "timeout"[0] == 't' && "version"[0] == 'v';
  }

  lemma {:induction false} HostTimeoutRead(n: nat)
    requires n <= MaxTimeout
    ensures InterpretHost(ReadLine("timeout" + ['='] + Decimal(n))) == Sets(2, SetTimeout(n))
    ensures '\n' !in "timeout" + ['='] + Decimal(n)
  {
    HostKeysArePlain();
    DigitsArePlain(n);
    LineOfWords("timeout", Decimal(n));
    TimeoutPairRead(n);
  }

  lemma {:induction false} ChoicesArePlain(c: BootChoice)
    ensures PlainWord(ChoiceName(c)) && ParseChoice(ChoiceName(c)) == Some(c)
  {
    assert |"normal"| == 6 && |"shell"| == 5 && |"poweroff"| == 8;
  }

  lemma {:induction false} ChoicePairRead(c: BootChoice)
    ensures InterpretHost(Pair("default", ChoiceName(c))) == Sets(4, SetDefault(c))
  {
    ChoicesArePlain(c);
    assert "default"[0] == 'd' && "version"[0] == 'v' && "timeout"[0] == 't';
  }

  lemma {:induction false} HostDefaultRead(c: BootChoice)
    ensures InterpretHost(ReadLine("default" + ['='] + ChoiceName(c))) == Sets(4, SetDefault(c))
    ensures '\n' !in "default" + ['='] + ChoiceName(c)
  {
    HostKeysArePlain();
    ChoicesArePlain(c);
    LineOfWords("default", ChoiceName(c));
    ChoicePairRead(c);
  }

  predicate SetsInRange(r: Reading<HostSetting>) {
    r.Sets? && r.setting.SetTimeout? ==> r.setting.timeout <= MaxTimeout
  }

  lemma {:induction false} HostSettledInRange(rs: seq<Reading<HostSetting>>)
    requires forall r :: r in rs ==> SetsInRange(r)
    ensures var c := HostFormat().Settled(rs); c.version == ConfigVersion && c.timeout <= MaxTimeout
  {
    if rs != [] {
      assert SetsInRange(rs[|rs| - 1]);
      assert forall r :: r in rs[..|rs| - 1] ==> r in rs;
      HostSettledInRange(rs[..|rs| - 1]);
    }
  }

  lemma {:induction false} ParsedHostInRange(text: string)
    ensures ParsedHost(text).Some? ==>
              var c := ParsedHost(text).value; c.version == ConfigVersion && c.timeout <= MaxTimeout
  {
    var lines := Tokens(text, '\n');
    var rs := HostFormat().Readings(lines);
    forall i | 0 <= i < |rs| ensures SetsInRange(rs[i]) {
      assert rs[i] == InterpretHost(ReadLine(lines[i]));
    }
    HostSettledInRange(rs);
  }

  lemma {:induction false} HostInRangeRoundTrip(c: HostConfig)
    requires c.version == ConfigVersion && c.timeout <= MaxTimeout
    ensures ParsedHost(HostText(c)) == Some(c)
  {
    HostVersionRead();
    HostTimeoutRead(c.timeout);
    HostDefaultRead(c.defaultChoice);
    HostFromLines(c, "version" + ['='] + Decimal(c.version), "timeout" + ['='] + Decimal(c.timeout),
                  "default" + ['='] + ChoiceName(c.defaultChoice));
  }

  lemma {:induction false} HostFromLines(c: HostConfig, v: string, t: string, d: string)
    requires c.version == ConfigVersion
    requires v != "" && t != "" && d != "" && '\n' !in v && '\n' !in t && '\n' !in d
    requires InterpretHost(ReadLine(v)) == Sets(1, SetHostVersion)
    requires InterpretHost(ReadLine(t)) == Sets(2, SetTimeout(c.timeout))
    requires InterpretHost(ReadLine(d)) == Sets(4, SetDefault(c.defaultChoice))
    ensures ParsedHost(Lines([v, t, d])) == Some(c)
  {
    MeaningOfThree(HostFormat(), v, t, d,
                   Sets(1, SetHostVersion), Sets(2, SetTimeout(c.timeout)), Sets(4, SetDefault(c.defaultChoice)));
  }

  /** bp_host_config_format prints any numbers; the parser takes them back exactly
      when the version is the supported one and the timeout is in range. */
  lemma {:induction false} HostRoundTrip(c: HostConfig)
    ensures ParsedHost(HostText(c)) == Some(c) <==> c.version == ConfigVersion && c.timeout <= MaxTimeout
  {
    if c.version == ConfigVersion && c.timeout <= MaxTimeout {
      HostInRangeRoundTrip(c);
    } else {
      ParsedHostInRange(HostText(c));
    }
  }
}
