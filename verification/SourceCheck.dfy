/**
  bp_rootfs_source_verify, which looks at a source tree before it is packed: a real
  etc directory, a configuration that loads, and the files that a recovery needs.
*/
module SourceCheck {
  import opened CStrings
  import opened FileTree
  import opened Packing
  import Config
  import Newc
  import Verifier

  // ----- Looking up a name

  predicate IsRealDirectory(n: SourceNode) { n.Folder? || n.MountPoint? }

  predicate Regular(n: SourceNode) { n.RegularFile? }

  predicate Runnable(n: SourceNode) { n.RegularFile? || n.SymbolicLink? }

  /** What the tree has under a name, on whatever device; no link is followed. */
  function StatusAt(s: Source, name: string): Option<SourceNode> {
    var p := Split(name, '/');
    if p in s.nodes then Some(s.nodes[p]) else None
  }

  predicate Found(s: Source, name: string, kind: SourceNode -> bool) {
    StatusAt(s, name).Some? && kind(StatusAt(s, name).value)
  }

  /** What is above a node is a directory of the tree. */
  lemma {:induction false} AboveNode(s: Source, p: Path, q: Path)
    requires Valid(s) && q in s.nodes && p < q
    ensures p in s.nodes && IsRealDirectory(s.nodes[p])
    decreases |q|
  {
    assert Hangs(s.nodes, q);
    var parent := q[..|q| - 1];
    if p != parent {
      assert p < parent;
      AboveNode(s, p, parent);
    }
  }

  lemma {:induction false} NodesHaveNames(s: Source, p: Path, i: nat)
    requires Valid(s) && p in s.nodes && i < |p|
    ensures p[i] != ""
  {
    NodesHaveFileNames(s, p);
    assert FileName(p[i]);
  }

  lemma {:induction false} SplitNone(text: string)
    requires '/' !in text
    ensures Split(text, '/') == [text]
  {
  }

  lemma {:induction false} Rejoined(text: string, sep: nat, rest: string)
    requires sep == IndexOf(text, '/') && sep < |text| && rest == text[sep + 1..]
    ensures text == text[..sep] + ['/'] + rest && '/' !in text[..sep]
  {
  }

  lemma {:induction false} SplitJoined(text: string, first: string, rest: string)
    requires text == first + ['/'] + rest && '/' !in first
    ensures Split(text, '/') == [first] + Split(rest, '/')
  {
    SplitFirst(first, '/', rest);
  }

  lemma {:induction false} SplitAt(text: string, sep: nat, rest: string)
    requires sep == IndexOf(text, '/') && sep < |text| && rest == text[sep + 1..]
    ensures Split(text, '/') == [text[..sep]] + Split(rest, '/')
  {
    Rejoined(text, sep, rest);
    SplitJoined(text, text[..sep], rest);
  }

  /** source_entry_status: from directory to directory, and then the last component. */
  method SourceEntryStatus(s: Source, relative: string) returns (r: Option<SourceNode>)
    requires Valid(s) && Config.PlainPath(Split(relative, '/'))
    ensures r == StatusAt(s, relative)
  {
    var directory: Path := [];
    var component := relative;
    var separator := IndexOf(component, '/');
    while separator < |component|
      invariant separator == IndexOf(component, '/')
      invariant directory in s.nodes && IsRealDirectory(s.nodes[directory])
      invariant directory + Split(component, '/') == Split(relative, '/')
      decreases |component|
    {
      var next := directory + [component[..separator]];
      StepDown(s, Split(relative, '/'), directory, component, separator);
      if component[..separator] == "" || next !in s.nodes || !IsRealDirectory(s.nodes[next]) {
        return None;
      }
      directory := next;
      component := component[separator + 1..];
      separator := IndexOf(component, '/');
    }
    SplitNone(component);
    var last := directory + [component];
    if component == "" || last !in s.nodes {
      if last in s.nodes {
        NodesHaveNames(s, last, |directory|);
      }
      return None;
    }
    return Some(s.nodes[last]);
  }

  /** One component of the way; a walk that cannot go on has nothing to find. */
  lemma {:induction false} StepDown(s: Source, path: Path, directory: Path, component: string, separator: nat)
    requires Valid(s) && separator == IndexOf(component, '/') && separator < |component|
    requires directory + Split(component, '/') == path
    ensures var next := directory + [component[..separator]];
            && next + Split(component[separator + 1..], '/') == path
            && (path in s.nodes ==> component[..separator] != "" && next in s.nodes && IsRealDirectory(s.nodes[next]))
  {
    var next, rest := directory + [component[..separator]], Split(component[separator + 1..], '/');
    SplitAt(component, separator, component[separator + 1..]);
    assert next + rest == path;
    if path in s.nodes {
      assert next < path;
      AboveNode(s, next, path);
      NodesHaveNames(s, next, |directory|);
    }
  }

  // ----- The configuration

  /** The configuration in the tree; None if it cannot be loaded. */
  function LoadedConfig(policy: Verifier.Policy, s: Source): Option<Config.RuntimeConfig> {
    if !PathsFit(policy, s) || !EtcIsReal(policy, s) then None
    else
      match StatusAt(s, policy.config)
      case None => Some(Config.RuntimeDefault)
      case Some(n) => ConfigOf(n)
  }

  /** The path of the configuration, which is longer than that of etc, fits its buffer. */
  predicate PathsFit(policy: Verifier.Policy, s: Source) {
    s.rootLength + 1 + |policy.config| < Config.PathCapacity
  }

  /** etc is a directory if it is there. */
  predicate EtcIsReal(policy: Verifier.Policy, s: Source) {
    [policy.etc] in s.nodes ==> IsRealDirectory(s.nodes[[policy.etc]])
  }

  /** A regular file of at most 64 KiB, parsed up to its first NUL. */
  function ConfigOf(n: SourceNode): Option<Config.RuntimeConfig> {
    if n.RegularFile? && |n.data| <= Verifier.ConfigLimit then Config.ParsedRuntime(Newc.CString(n.data)) else None
  }

  /** bp_rootfs_runtime_config_load, with runtime_config_paths and bp_read_text_file. */
  method LoadConfig(policy: Verifier.Policy, s: Source) returns (r: Option<Config.RuntimeConfig>)
    requires Valid(s)
    ensures r == LoadedConfig(policy, s)
  {
    if s.rootLength + 1 + |policy.config| >= Config.PathCapacity {
      return None;
    }
    var etc := [policy.etc];
    if etc in s.nodes && !IsRealDirectory(s.nodes[etc]) {
      return None;
    }
    var status := StatusAt(s, policy.config);
    if status.None? {
      return Some(Config.RuntimeDefault);
    }
    if !status.value.RegularFile? || |status.value.data| > Verifier.ConfigLimit {
      return None;
    }
    r := Config.ParseRuntime(Newc.CString(status.value.data));
  }

  // ----- The check

  /** The tree is one that a recovery could be started from, if all of it were packed. */
  predicate SourceVerified(policy: Verifier.Policy, s: Source) {
    var runtime := LoadedConfig(policy, s);
    && runtime.Some? && Found(s, policy.shell, Runnable) && Found(s, policy.progress, Runnable)
    && (runtime.value.entryMode == Config.Handoff ==> Found(s, Verifier.BelowRoot(runtime.value.entry), Regular))
  }

  /** The names that the check looks up. */
  predicate Usable(policy: Verifier.Policy) {
    && Config.PlainPath(Split(policy.shell, '/')) && Config.PlainPath(Split(policy.progress, '/'))
    && |Split(policy.config, '/')| == 2 && Split(policy.config, '/')[0] == policy.etc
  }

  lemma {:induction false} LoadedEntryIsPlain(policy: Verifier.Policy, s: Source)
    requires LoadedConfig(policy, s).Some?
    ensures Config.PlainPath(Split(Verifier.BelowRoot(LoadedConfig(policy, s).value.entry), '/'))
  {
    if StatusAt(s, policy.config).Some? {
      Config.ParsedIsClean(Newc.CString(StatusAt(s, policy.config).value.data));
    } else {
      Config.DefaultEntryIsClean();
    }
  }

  /** bp_rootfs_source_verify */
  method VerifySource(policy: Verifier.Policy, s: Source) returns (ok: bool)
    requires Valid(s) && Usable(policy)
    ensures ok <==> SourceVerified(policy, s)
  {
    var runtime := LoadConfig(policy, s);
    if runtime.None? {
      return false;
    }
    var shell := SourceEntryStatus(s, policy.shell);
    if shell.None? || !Runnable(shell.value) {
      return false;
    }
    var progress := SourceEntryStatus(s, policy.progress);
    if progress.None? || !Runnable(progress.value) {
      return false;
    }
    if runtime.value.entryMode == Config.Handoff {
      LoadedEntryIsPlain(policy, s);
      var entry := SourceEntryStatus(s, Verifier.BelowRoot(runtime.value.entry));
      return entry.Some? && Regular(entry.value);
    }
    return true;
  }

  /** A name with one slash inside, between plain components. */
  predicate IsPair(name: string, a: string, b: string) {
    name == a + ['/'] + b && IsWord(a) && IsWord(b)
  }

  lemma {:induction false} SplitOfPair(name: string, a: string, b: string)
    requires IsPair(name, a, b)
    ensures Split(name, '/') == [a, b] && Config.PlainPath(Split(name, '/'))
  {
    SplitFirst(a, '/', b);
    SplitNone(b);
  }

  lemma {:induction false} UsablePairs(policy: Verifier.Policy, config: string, a: string, b: string,
      c: string, d: string)
    requires IsPair(policy.config, policy.etc, config) && IsPair(policy.shell, a, b) && IsPair(policy.progress, c, d)
    ensures Usable(policy)
  {
    SplitOfPair(policy.config, policy.etc, config);
    SplitOfPair(policy.shell, a, b);
    SplitOfPair(policy.progress, c, d);
  }

  predicate IsWord(w: string) { '/' !in w && Config.PlainComponent(w) }

  lemma {:induction false} ShortWords()
    ensures IsWord("etc") && IsWord("bin") && IsWord("sh") && IsWord("sbin")
  {
  }

  lemma {:induction false} ConfigWord()
    ensures IsWord("burning-progress.conf")
  {
    assert |"burning-progress.conf"| == 21;
  }

  lemma {:induction false} ProgressWord()
    ensures IsWord("burning-progress")
  {
    assert |"burning-progress"| == 16;
  }

  lemma {:induction false} StandardIsUsable(recovery: bool)
    ensures Usable(Verifier.Standard(recovery))
  {
    ShortWords();
    ConfigWord();
    ProgressWord();
    UsablePairs(Verifier.Standard(recovery), "burning-progress.conf", "bin", "sh", "sbin", "burning-progress");
  }
}
