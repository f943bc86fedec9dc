/**
  The install-state file of src/install.c: six lines of keys and values, written
  by one function and read back by another.
*/
module StateFile {
  import opened CStrings
  import Config

  datatype BackupKind = SymlinkBackup | RegularBackup

  datatype InstallState = InstallState(kind: BackupKind, initDigest: string, progressDigest: string)

  function KindName(k: BackupKind): string {
    if k == SymlinkBackup then "symlink" else "regular"
  }

  /** One line of the file, and what it is made of. */
  datatype Pair = Pair(key: string, value: string)

  function LineOf(p: Pair): string { p.key + ['='] + p.value }

  function LinesOf(ps: seq<Pair>): seq<string> {
    if ps == [] then [] else [LineOf(ps[0])] + LinesOf(ps[1..])
  }

  // ----- Looking up a value

  /** The line gives this key a value that is not empty. */
  predicate Gives(line: string, key: string) {
    |line| > |key| + 1 && line[..|key|] == key && line[|key|] == '='
  }

  /** The value on the first line that gives the key one, if it fits the buffer. */
  function FirstValue(lines: seq<string>, key: string, size: nat): Option<string> {
    if lines == [] then None
    else if !Gives(lines[0], key) then FirstValue(lines[1..], key, size)
    else if |lines[0]| - |key| - 1 >= size then None
    else Some(lines[0][|key| + 1..])
  }

  /** A line gives the key this value, and no line before it gives the key any. */
  predicate FoundAt(lines: seq<string>, key: string, value: string, k: nat) {
    k < |lines| && lines[k] == key + "=" + value && forall i :: 0 <= i < k ==> !Gives(lines[i], key)
  }

  /** A line gives a key something exactly if it is the key, an equals sign and more. */
  lemma {:induction false} GivesIff(line: string, key: string)
    ensures Gives(line, key) <==> exists value: string :: value != "" && line == key + "=" + value
  {
    if Gives(line, key) {
      assert line == key + "=" + line[|key| + 1..];
    }
  }

  /** What is read for a key is on the first line that gives the key a value. */
  lemma {:induction false} FirstValueIff(lines: seq<string>, key: string, size: nat, value: string)
    ensures FirstValue(lines, key, size) == Some(value)
            <==> value != "" && |value| < size && exists k: nat :: FoundAt(lines, key, value, k)
  {
    forall k: nat | FoundAt(lines, key, value, k) && k > 0
      ensures !Gives(lines[0], key) && FoundAt(lines[1..], key, value, k - 1)
    {
    }
    if lines != [] {
      var first := lines[0];
      if Gives(first, key) {
        assert first == key + "=" + first[|key| + 1..];
        assert FoundAt(lines, key, first[|key| + 1..], 0);
        assert forall k: nat :: FoundAt(lines, key, value, k) ==> k == 0;
      } else {
        FirstValueIff(lines[1..], key, size, value);
        forall k: nat | FoundAt(lines[1..], key, value, k) ensures FoundAt(lines, key, value, k + 1) {
          assert forall i :: 0 < i <= k ==> lines[i] == lines[1..][i - 1];
        }
      }
    }
  }

  /** extract_state_value */
  method ExtractValue(text: string, key: string, size: nat) returns (r: Option<string>)
    ensures r == FirstValue(Split(text, '\n'), key, size)
  {
    var line := text;
    while line != ""
      invariant FirstValue(Split(text, '\n'), key, size) == FirstValue(Split(line, '\n'), key, size)
      decreases |line|
    {
      var end := IndexOf(line, '\n');
      FirstLine(line);
      if Gives(line[..end], key) {
        return if end - |key| - 1 >= size then None else Some(line[..end][|key| + 1..]);
      }
      if end == |line| {
        assert FirstValue([], key, size) == None;
        return None;
      }
      line := line[end + 1..];
    }
    assert [""][1..] == [];
    return None;
  }

  lemma {:induction false} FirstLine(line: string)
    ensures var end := IndexOf(line, '\n');
            Split(line, '\n')[0] == line[..end]
            && Split(line, '\n')[1..] == if end == |line| then [] else Split(line[end + 1..], '\n')
  {
    var end := IndexOf(line, '\n');
    if '\n' in line {
      HeadAndTail(line[..end], Split(line[end + 1..], '\n'));
    } else {
      assert line[..end] == line;
      HeadAndTail(line, []);
      assert [line] + [] == [line];
    }
  }

  lemma {:induction false} HeadAndTail(first: string, rest: seq<string>)
    ensures ([first] + rest)[0] == first && ([first] + rest)[1..] == rest
  {
  }

  // ----- What is written is found

  predicate Plain(p: Pair) {
    '=' !in p.key && p.value != "" && '\n' !in p.key && '\n' !in p.value
  }

  lemma {:induction false} LineGives(p: Pair, key: string)
    requires Plain(p) && '=' !in key
    ensures Gives(LineOf(p), key) <==> p.key == key
    ensures LineOf(p)[|p.key| + 1..] == p.value
  {
    var line := LineOf(p);
    assert line[|p.key|] == '=';
    assert line[..|p.key|] == p.key;
    assert |key| < |p.key| ==> line[|key|] == p.key[|key|] && p.key[|key|] in p.key;
    assert |key| > |p.key| ==> key[|p.key|] in key;
  }

  /** The value of the first pair with a key. */
  function Lookup(ps: seq<Pair>, key: string): Option<string> {
    if ps == [] then None else if ps[0].key == key then Some(ps[0].value) else Lookup(ps[1..], key)
  }

  lemma {:induction false} FirstValueOfLines(ps: seq<Pair>, key: string, size: nat)
    requires (forall p :: p in ps ==> Plain(p) && |p.value| < size) && '=' !in key
    ensures FirstValue(LinesOf(ps) + [""], key, size) == Lookup(ps, key)
  {
    if ps == [] {
      assert ([] + [""])[1..] == [];
    } else {
      assert ps[0] in ps && forall p :: p in ps[1..] ==> p in ps;
      LineGives(ps[0], key);
      FirstValueOfLines(ps[1..], key, size);
      assert (LinesOf(ps) + [""])[0] == LineOf(ps[0]);
      assert (LinesOf(ps) + [""])[1..] == LinesOf(ps[1..]) + [""];
    }
  }

  lemma {:induction false} LinesHaveNoBreaks(ps: seq<Pair>)
    requires forall p :: p in ps ==> Plain(p)
    ensures forall l :: l in LinesOf(ps) ==> '\n' !in l
  {
    if ps != [] {
      assert ps[0] in ps && forall p :: p in ps[1..] ==> p in ps;
      LinesHaveNoBreaks(ps[1..]);
    }
  }

  /** A lookup in the text of some pairs is a lookup in the pairs. */
  lemma {:induction false} ValueOfText(ps: seq<Pair>, key: string, size: nat)
    requires (forall p :: p in ps ==> Plain(p) && |p.value| < size) && '=' !in key
    ensures FirstValue(Split(Config.Lines(LinesOf(ps)), '\n'), key, size) == Lookup(ps, key)
  {
    LinesHaveNoBreaks(ps);
    Config.SplitOfLines(LinesOf(ps));
    FirstValueOfLines(ps, key, size);
  }

  // ----- The install state

  /** The keys, and the fixed values that a reader insists on. */
  datatype Words = Words(version: Pair, program: Pair, target: Pair, kind: string, initDigest: string,
                         progressDigest: string)
  {
    predicate Usable() {
      && Fixed(version) && Fixed(program) && Fixed(target)
      && PlainKey(kind) && PlainKey(initDigest) && PlainKey(progressDigest)
      && program.key != version.key && target.key != version.key && kind != version.key
      && initDigest != version.key && progressDigest != version.key
      && target.key != program.key && kind != program.key && initDigest != program.key && progressDigest != program.key
      && kind != target.key && initDigest != target.key && progressDigest != target.key
      && initDigest != kind && progressDigest != kind && progressDigest != initDigest
      && |version.key| + |program.key| + |target.key| + |kind| + |initDigest| + |progressDigest| <= 100
    }
  }

  predicate PlainKey(key: string) { '=' !in key && '\n' !in key }

  predicate Fixed(p: Pair) { PlainKey(p.key) && p.value != "" && '\n' !in p.value && |p.value| < 65 }

  const Version := Pair("version", "1")
  const Program := Pair("programVersion", "0.1.0")
  const Target := Pair("initTarget", "/sbin/burning-init")
  const KindKey := "backupKind"
  const InitDigestKey := "burningInitSha256"
  const ProgressDigestKey := "burningProgressSha256"

  function StandardWords(): Words { Words(Version, Program, Target, KindKey, InitDigestKey, ProgressDigestKey) }

  lemma {:induction false} FixedWords()
    ensures Fixed(Version) && Fixed(Program) && Fixed(Target)
    ensures |Version.key| == 7 && |Program.key| == 14 && |Target.key| == 10 && Target.key[0] == 'i'
  {
    assert |"1"| == 1 && |"0.1.0"| == 5 && |"/sbin/burning-init"| == 18;
  }

  lemma {:induction false} OtherKeys()
    ensures PlainKey(KindKey) && PlainKey(InitDigestKey) && PlainKey(ProgressDigestKey)
    ensures |KindKey| == 10 && KindKey[0] == 'b' && |InitDigestKey| == 17 && |ProgressDigestKey| == 21
  {
  }

  /** No two keys are the same, and none can be mistaken for a line break or a value. */
  lemma {:induction false} StandardWordsAreUsable()
    ensures StandardWords().Usable()
  {
    FixedWords();
    OtherKeys();
    UsableByLength(StandardWords());
  }

  lemma {:induction false} UsableByLength(w: Words)
    requires Fixed(w.version) && Fixed(w.program) && Fixed(w.target)
    requires PlainKey(w.kind) && PlainKey(w.initDigest) && PlainKey(w.progressDigest)
    requires |w.version.key| == 7 && |w.program.key| == 14 && |w.target.key| == |w.kind| == 10
    requires w.target.key[0] != w.kind[0]
    requires |w.initDigest| == 17 && |w.progressDigest| == 21
    ensures w.Usable()
  {
  }

  function PairsOf(w: Words, s: InstallState): seq<Pair> {
    [w.version, w.program, w.target, Pair(w.kind, KindName(s.kind)),
     Pair(w.initDigest, s.initDigest), Pair(w.progressDigest, s.progressDigest)]
  }

  /** format_state */
  function StateText(w: Words, s: InstallState): string { Config.Lines(LinesOf(PairsOf(w, s))) }

  function KindOf(name: string): Option<BackupKind> {
    if name == "symlink" then Some(SymlinkBackup) else if name == "regular" then Some(RegularBackup) else None
  }

  /** What a reader makes of the six lookups. */
  function StateFrom(w: Words, find: (string, nat) -> Option<string>): Option<InstallState> {
    if find(w.version.key, 128) != Some(w.version.value) || find(w.target.key, 128) != Some(w.target.value) then None
    else
      var kind := find(w.kind, 128);
      var init, progress := find(w.initDigest, 65), find(w.progressDigest, 65);
      if kind.None? || KindOf(kind.value).None? || init.None? || progress.None? then None
      else if |init.value| != 64 || |progress.value| != 64 then None
      else Some(InstallState(KindOf(kind.value).value, init.value, progress.value))
  }

  function Finder(text: string): (string, nat) -> Option<string> {
    (key: string, size: nat) => FirstValue(Split(text, '\n'), key, size)
  }

  /** The state that a text holds. */
  function StateOf(w: Words, text: string): Option<InstallState> { StateFrom(w, Finder(text)) }

  /** A text holds a state exactly if it has the program's version and target, a kind, and
      two digests of 64 characters. */
  lemma {:induction false} StateIff(text: string, s: InstallState)
    ensures StateOf(StandardWords(), text) == Some(s)
            <==> var lines := Split(text, '\n');
                 && FirstValue(lines, "version", 128) == Some("1")
                 && FirstValue(lines, "initTarget", 128) == Some("/sbin/burning-init")
                 && FirstValue(lines, "backupKind", 128) == Some(KindName(s.kind))
                 && FirstValue(lines, "burningInitSha256", 65) == Some(s.initDigest) && |s.initDigest| == 64
                 && FirstValue(lines, "burningProgressSha256", 65) == Some(s.progressDigest)
                 && |s.progressDigest| == 64
  {
    var kind := FirstValue(Split(text, '\n'), "backupKind", 128);
    if kind.Some? {
      KindIff(kind.value, s.kind);
    }
  }

  lemma {:induction false} KindIff(name: string, k: BackupKind)
    ensures KindOf(name) == Some(k) <==> name == KindName(k)
  {
    KindIsPlain(k);
  }

  /** read_state of a file with this text */
  method ReadState(w: Words, text: string) returns (r: Option<InstallState>)
    ensures r == StateOf(w, text)
  {
    var version := ExtractValue(text, w.version.key, 128);
    var target := ExtractValue(text, w.target.key, 128);
    if version != Some(w.version.value) || target != Some(w.target.value) {
      return None;
    }
    var name := ExtractValue(text, w.kind, 128);
    if name.None? {
      return None;
    }
    var kind := KindOf(name.value);
    if kind.None? {
      return None;
    }
    var init := ExtractValue(text, w.initDigest, 65);
    if init.None? || |init.value| != 64 {
      return None;
    }
    var progress := ExtractValue(text, w.progressDigest, 65);
    if progress.None? || |progress.value| != 64 {
      return None;
    }
    return Some(InstallState(kind.value, init.value, progress.value));
  }

  /** The text that the installer writes. */
  lemma {:induction false} StandardText(s: InstallState)
    ensures StateText(StandardWords(), s)
            == Config.Lines(["version=1", "programVersion=0.1.0", "initTarget=/sbin/burning-init",
                             "backupKind=" + KindName(s.kind), "burningInitSha256=" + s.initDigest,
                             "burningProgressSha256=" + s.progressDigest])
    ensures KindName(s.kind) == match s.kind
                                case SymlinkBackup => "symlink"
                                case RegularBackup => "regular"
  {
    FixedLines();
    ValueLines(s);
    LinesOfSix(PairsOf(StandardWords(), s));
  }

  lemma {:induction false} FixedLines()
    ensures LineOf(Version) == "version=1"
    ensures LineOf(Program) == "programVersion=0.1.0"
    ensures LineOf(Target) == "initTarget=/sbin/burning-init"
  {
  }

  lemma {:induction false} ValueLines(s: InstallState)
    ensures LineOf(Pair(KindKey, KindName(s.kind))) == "backupKind=" + KindName(s.kind)
    ensures LineOf(Pair(InitDigestKey, s.initDigest)) == "burningInitSha256=" + s.initDigest
    ensures LineOf(Pair(ProgressDigestKey, s.progressDigest)) == "burningProgressSha256=" + s.progressDigest
  {
  }

  lemma {:induction false} LineAt(ps: seq<Pair>, k: nat)
    requires k < |ps|
    ensures LinesOf(ps[k..]) == [LineOf(ps[k])] + LinesOf(ps[k + 1..])
  {
    assert ps[k..][1..] == ps[k + 1..];
  }

  lemma {:induction false} ThreeLines(ps: seq<Pair>, k: nat)
    requires k + 3 <= |ps|
    ensures LinesOf(ps[k..]) == [LineOf(ps[k]), LineOf(ps[k + 1]), LineOf(ps[k + 2])] + LinesOf(ps[k + 3..])
  {
    LineAt(ps, k);
    LineAt(ps, k + 1);
    LineAt(ps, k + 2);
  }

  lemma {:induction false} LinesOfSix(ps: seq<Pair>)
    requires |ps| == 6
    ensures LinesOf(ps) == [LineOf(ps[0]), LineOf(ps[1]), LineOf(ps[2]), LineOf(ps[3]), LineOf(ps[4]), LineOf(ps[5])]
  {
    ThreeLines(ps, 0);
    ThreeLines(ps, 3);
    assert ps[0..] == ps && ps[6..] == [];
  }

  predicate IsDigest(d: string) { |d| == 64 && '\n' !in d }

  lemma {:induction false} KindIsPlain(k: BackupKind)
    ensures KindName(k) != "" && '\n' !in KindName(k) && |KindName(k)| < 65 && KindOf(KindName(k)) == Some(k)
  {
    assert |"symlink"| == 7 && |"regular"| == 7 && "symlink"[0] == 's' && "regular"[0] == 'r';
  }

  /** What install writes is what uninstall reads: the same kind of backup and the
      same two digests. */
  lemma {:induction false} StateRoundTrip(w: Words, s: InstallState)
    requires w.Usable() && IsDigest(s.initDigest) && IsDigest(s.progressDigest)
    ensures StateOf(w, StateText(w, s)) == Some(s)
  {
    KindIsPlain(s.kind);
    var find := Finder(StateText(w, s));
    StateLookups(w, s, KindName(s.kind));
  }

  lemma {:induction false} PairsArePlain(w: Words, s: InstallState)
    requires w.Usable() && IsDigest(s.initDigest) && IsDigest(s.progressDigest)
    ensures forall p :: p in PairsOf(w, s) ==> Plain(p) && |p.value| < 65
  {
    KindIsPlain(s.kind);
  }

  lemma {:induction false} LengthFrom(ps: seq<Pair>, k: nat)
    requires k < |ps|
    ensures |Config.Lines(LinesOf(ps[k..]))| == |ps[k].key| + |ps[k].value| + 2 + |Config.Lines(LinesOf(ps[k + 1..]))|
  {
    assert ps[k..][1..] == ps[k + 1..];
    assert LinesOf(ps[k..]) == [LineOf(ps[k])] + LinesOf(ps[k + 1..]);
    assert ([LineOf(ps[k])] + LinesOf(ps[k + 1..]))[1..] == LinesOf(ps[k + 1..]);
  }

  /** The text fits the buffer that it is formatted into. */
  lemma {:induction false} StateFits(w: Words, s: InstallState)
    requires w.Usable() && IsDigest(s.initDigest) && IsDigest(s.progressDigest)
    ensures |StateText(w, s)| < 512
  {
    PairsArePlain(w, s);
    var ps := PairsOf(w, s);
    forall k | 0 <= k < 6 ensures |ps[k].value| < 65 {
      assert ps[k] in ps;
    }
    LengthFrom(ps, 0);
    LengthFrom(ps, 1);
    LengthFrom(ps, 2);
    LengthFrom(ps, 3);
    LengthFrom(ps, 4);
    LengthFrom(ps, 5);
    assert ps[0..] == ps && ps[6..] == [];
  }

  lemma {:induction false} PairsAreFound(w: Words, s: InstallState)
    requires w.Usable()
    ensures var ps := PairsOf(w, s);
            && Lookup(ps, w.version.key) == Some(w.version.value) && Lookup(ps, w.target.key) == Some(w.target.value)
            && Lookup(ps, w.kind) == Some(KindName(s.kind))
            && Lookup(ps, w.initDigest) == Some(s.initDigest) && Lookup(ps, w.progressDigest) == Some(s.progressDigest)
  {
    var ps := PairsOf(w, s);
    LookupLater(ps, w.kind, 3);
    LookupLater(ps, w.initDigest, 4);
    LookupLater(ps, w.progressDigest, 5);
    LookupLater(ps, w.target.key, 2);
  }

  lemma {:induction false} LookupLater(ps: seq<Pair>, key: string, k: nat)
    requires k < |ps| && ps[k].key == key && forall i :: 0 <= i < k ==> ps[i].key != key
    ensures Lookup(ps, key) == Some(ps[k].value)
    decreases ps, k
  {
    if k > 0 {
      assert ps[1..][k - 1] == ps[k] && forall i :: 0 <= i < k - 1 ==> ps[1..][i] == ps[i + 1];
      LookupLater(ps[1..], key, k - 1);
    }
  }

  lemma {:induction false} StateLookups(w: Words, s: InstallState, kind: string)
    requires w.Usable() && IsDigest(s.initDigest) && IsDigest(s.progressDigest) && kind == KindName(s.kind)
    ensures var find := Finder(StateText(w, s));
            && find(w.version.key, 128) == Some(w.version.value) && find(w.target.key, 128) == Some(w.target.value)
            && find(w.kind, 128) == Some(kind)
            && find(w.initDigest, 65) == Some(s.initDigest) && find(w.progressDigest, 65) == Some(s.progressDigest)
  {
    PairsArePlain(w, s);
    PairsAreFound(w, s);
    var ps := PairsOf(w, s);
    ValueOfText(ps, w.version.key, 128);
    ValueOfText(ps, w.target.key, 128);
    ValueOfText(ps, w.kind, 128);
    ValueOfText(ps, w.initDigest, 65);
    ValueOfText(ps, w.progressDigest, 65);
  }
}
