/**
  The names in a tar archive, as src/tar.c treats them: normalised, and cut free of
  a single directory that holds everything.
*/
module TarNames {
  import opened CStrings
  import Config

  /** A normalised name: the archive's root itself, or something below it. */
  datatype Name = Root | Below(path: string)

  // ----- Normalisation

  function SkipDots(s: string): string {
    if |s| >= 2 && s[0] == '.' && s[1] == '/' then SkipDots(s[2..]) else s
  }

  function CutSlashes(s: string): string {
    if s != "" && s[|s| - 1] == '/' then CutSlashes(s[..|s| - 1]) else s
  }

  predicate AllPlain(parts: seq<string>) {
    forall i :: 0 <= i < |parts| ==> Config.PlainComponent(parts[i])
  }

  /** A name that can be a path of the extracted tree. */
  predicate IsPath(s: string) {
    s != "" && s[0] != '/' && |s| < Config.PathCapacity && AllPlain(Split(s, '/'))
  }

  function Normalize(input: string): Option<Name> {
    var s := CutSlashes(SkipDots(input));
    if s == "" || s == "." then Some(Root) else if IsPath(s) then Some(Below(s)) else None
  }

  lemma {:induction false} AllPlainStep(s: string, i: nat)
    requires i <= |s| && '/' !in s[..i] && (i < |s| ==> s[i] == '/')
    ensures AllPlain(Split(s, '/')) <==>
            Config.PlainComponent(s[..i]) && (i < |s| ==> AllPlain(Split(s[i + 1..], '/')))
  {
    if i < |s| {
      assert s == s[..i] + ['/'] + s[i + 1..];
      SplitFirst(s[..i], '/', s[i + 1..]);
      var rest := Split(s[i + 1..], '/');
      AllPlainOfAppend(s[..i], rest);
    } else {
      assert s[..i] == s;
      assert Split(s, '/') == [s] + [];
      AllPlainOfAppend(s, []);
    }
  }

  lemma {:induction false} AllPlainOfAppend(first: string, rest: seq<string>)
    ensures AllPlain([first] + rest) <==> Config.PlainComponent(first) && AllPlain(rest)
  {
    var all := [first] + rest;
    assert all[0] == first && forall i :: 0 <= i < |rest| ==> all[i + 1] == rest[i];
  }

  /** A test that looks at one component after the other. */
  ghost predicate IsComponentwise(plain: string -> bool) {
    forall s, i: nat {:trigger plain(s), s[..i]} :: i <= |s| && '/' !in s[..i] && (i < |s| ==> s[i] == '/') ==>
      (plain(s) <==> Config.PlainComponent(s[..i]) && (i < |s| ==> plain(s[i + 1..])))
  }

  function PlainTest(): string -> bool { (s: string) => AllPlain(Split(s, '/')) }

  lemma {:induction false} PlainTestIsComponentwise()
    ensures IsComponentwise(PlainTest())
  {
    forall s: string, i: nat | i <= |s| && '/' !in s[..i] && (i < |s| ==> s[i] == '/')
      ensures PlainTest()(s) <==> Config.PlainComponent(s[..i]) && (i < |s| ==> PlainTest()(s[i + 1..])) {
      AllPlainStep(s, i);
    }
  }

  /** The loop of normalize_tar_path over the components. */
  method ComponentsArePlain(path: string, ghost plain: string -> bool) returns (ok: bool)
    requires IsComponentwise(plain)
    ensures ok <==> plain(path)
  {
    var start, index := 0, 0;
    assert path[0..] == path;
    while index <= |path|
      invariant 0 <= start <= index <= |path| + 1 && (index == |path| + 1 ==> start == index && plain(path))
      invariant index <= |path| ==> '/' !in path[start..index] && (plain(path) <==> plain(path[start..]))
      decreases |path| - index
    {
      if index == |path| || path[index] == '/' {
        ghost var rest := path[start..];
        assert rest[..index - start] == path[start..index];
        var component := Config.ComponentIsPlain(path, start, index - start);
        if !component {
          return false;
        }
        assert index < |path| ==> rest[index - start + 1..] == path[index + 1..];
        start := index + 1;
      } else {
        assert path[start..index + 1] == path[start..index] + [path[index]];
      }
      index := index + 1;
    }
    return true;
  }

  /** normalize_tar_path; None is a refusal. */
  method NormalizePath(input: string) returns (r: Option<Name>)
    ensures r == Normalize(input)
  {
    var path := input;
    while |path| >= 2 && path[0] == '.' && path[1] == '/'
      invariant SkipDots(path) == SkipDots(input)
      decreases |path|
    {
      path := path[2..];
    }
    var length := |path|;
    assert path[..length] == path;
    while length > 0 && path[length - 1] == '/'
      invariant 0 <= length <= |path| && CutSlashes(path[..length]) == CutSlashes(path)
    {
      assert path[..length][..length - 1] == path[..length - 1];
      length := length - 1;
    }
    if length == 0 || (length == 1 && path[0] == '.') {
      return Some(Root);
    }
    if path[0] == '/' || length >= Config.PathCapacity {
      return None;
    }
    PlainTestIsComponentwise();
    var plain := ComponentsArePlain(path[..length], PlainTest());
    return if plain then Some(Below(path[..length])) else None;
  }

  /** Normalising a normalised name changes nothing. */
  lemma {:induction false} NormalizeAgain(s: string)
    requires IsPath(s)
    ensures Normalize(s) == Some(Below(s))
  {
    PathEnds(s);
  }

  lemma {:induction false} PathEnds(s: string)
    requires IsPath(s)
    ensures s[|s| - 1] != '/' && s != "." && !(|s| >= 2 && s[0] == '.' && s[1] == '/')
  {
    if |s| >= 2 && s[1] == '/' {
      AllPlainStep(s, 1);
    } else if s == "." {
      AllPlainStep(s, 1);
    }
    if s[|s| - 1] == '/' {
      EndsInSlash(s);
    }
  }

  lemma {:induction false} EndsInSlash(s: string)
    requires s != "" && s[|s| - 1] == '/'
    ensures !AllPlain(Split(s, '/'))
  {
    var init := s[..|s| - 1];
    assert s == init + ['/'] + "";
    SplitAppend(init, "", '/');
    LastIsNotPlain(Split(init, '/'));
  }

  lemma {:induction false} LastIsNotPlain(parts: seq<string>)
    ensures !AllPlain(parts + [""])
  {
    assert (parts + [""])[|parts|] == "";
  }

  // ----- What normalisation means

  /** n times "./" */
  function Dots(n: nat): string {
    if n == 0 then "" else "./" + Dots(n - 1)
  }

  function Slashes(n: nat): string {
    if n == 0 then "" else Slashes(n - 1) + "/"
  }

  /** A leading "./" makes no difference, */
  lemma {:induction false} LeadingDots(s: string)
    ensures Normalize("./" + s) == Normalize(s)
  {
    assert ("./" + s)[2..] == s;
  }

  /** and neither does a slash at the end. */
  lemma {:induction false} TrailingSlash(s: string)
    ensures Normalize(s + "/") == Normalize(s)
    decreases |s|
  {
    if |s| >= 2 && s[0] == '.' && s[1] == '/' {
      TrailingSlash(s[2..]);
      assert (s + "/")[2..] == s[2..] + "/";
    } else if s == "." {
      LeadingDots("");
      RootCores();
      assert s + "/" == "./" + "";
    } else {
      assert SkipDots(s + "/") == s + "/";
      assert (s + "/")[..|s|] == s;
    }
  }

  lemma {:induction false} Regroup(a: string, b: string, c: string)
    ensures a + b + c == a + (b + c)
  {
  }

  lemma {:induction false} DotsInFront(n: nat, s: string)
    ensures Normalize(Dots(n) + s) == Normalize(s)
    decreases n
  {
    if n == 0 {
      assert Dots(0) + s == s;
    } else {
      DotsInFront(n - 1, s);
      LeadingDots(Dots(n - 1) + s);
      Regroup("./", Dots(n - 1), s);
    }
  }

  lemma {:induction false} SlashesBehind(n: nat, s: string)
    ensures Normalize(s + Slashes(n)) == Normalize(s)
    decreases n
  {
    if n == 0 {
      assert s + Slashes(0) == s;
    } else {
      SlashesBehind(n - 1, s);
      TrailingSlash(s + Slashes(n - 1));
      assert s + Slashes(n) == s + Slashes(n - 1) + "/";
    }
  }

  /** Any text is a core with dots in front and slashes behind. */
  lemma {:induction false} SkippedDots(s: string) returns (n: nat)
    ensures s == Dots(n) + SkipDots(s)
    decreases |s|
  {
    if |s| >= 2 && s[0] == '.' && s[1] == '/' {
      var k := SkippedDots(s[2..]);
      n := k + 1;
      assert s == "./" + s[2..];
    } else {
      n := 0;
    }
  }

  lemma {:induction false} CutOff(s: string) returns (n: nat)
    ensures s == CutSlashes(s) + Slashes(n)
    decreases |s|
  {
    if s != "" && s[|s| - 1] == '/' {
      var k := CutOff(s[..|s| - 1]);
      n := k + 1;
      assert s == s[..|s| - 1] + "/";
    } else {
      n := 0;
    }
  }

  /** The text is this core, with dots in front and slashes behind. */
  ghost predicate Wraps(text: string, core: string) {
    exists a: nat, b: nat {:trigger Dots(a), Slashes(b)} :: text == Dots(a) + (core + Slashes(b))
  }

  lemma {:induction false} WrapsCore(text: string)
    ensures Wraps(text, CutSlashes(SkipDots(text)))
  {
    var a := SkippedDots(text);
    var b := CutOff(SkipDots(text));
    assert text == Dots(a) + (CutSlashes(SkipDots(text)) + Slashes(b));
  }

  lemma {:induction false} WrappedIsCore(text: string, core: string)
    requires Wraps(text, core)
    ensures Normalize(text) == Normalize(core)
  {
    var a: nat, b: nat :| text == Dots(a) + (core + Slashes(b));
    DotsInFront(a, core + Slashes(b));
    SlashesBehind(b, core);
  }

  lemma {:induction false} RootCores()
    ensures Normalize("") == Some(Root) && Normalize(".") == Some(Root)
  {
  }

  /** What a name has to be to become a path: exactly that path with any run of "./"
      before it and of slashes behind it. */
  lemma {:induction false} NormalizesTo(text: string, p: string)
    ensures Normalize(text) == Some(Below(p)) <==> IsPath(p) && Wraps(text, p)
  {
    WrapsCore(text);
    if IsPath(p) && Wraps(text, p) {
      NormalizeAgain(p);
      WrappedIsCore(text, p);
    }
  }

  /** The archive's root is what is left of nothing or of a dot; everything else is
      refused. */
  lemma {:induction false} NormalizesToRoot(text: string)
    ensures Normalize(text) == Some(Root) <==> Wraps(text, "") || Wraps(text, ".")
  {
    WrapsCore(text);
    RootCores();
    if Wraps(text, "") {
      WrappedIsCore(text, "");
    } else if Wraps(text, ".") {
      WrappedIsCore(text, ".");
    }
  }

  predicate NoneSpecial(parts: seq<string>) {
    forall c :: c in parts ==> c != "" && c != "." && c != ".."
  }

  lemma {:induction false} AllPlainIff(parts: seq<string>)
    ensures AllPlain(parts) <==> NoneSpecial(parts)
  {
    assert forall i :: 0 <= i < |parts| ==> parts[i] in parts;
  }

  /** A path is relative, fits its buffer, and no component is empty, . or .. . */
  lemma {:induction false} IsPathIff(s: string)
    ensures IsPath(s) <==> s != "" && s[0] != '/' && |s| < 4096 && NoneSpecial(Split(s, '/'))
  {
    AllPlainIff(Split(s, '/'));
  }

  // ----- The directory that holds everything

  /** path_is_within_prefix */
  predicate Within(path: string, prefix: string) { path == prefix || prefix + "/" <= path }

  lemma {:induction false} WithinIff(path: string, prefix: string)
    ensures Within(path, prefix) <==> path == prefix || exists rest :: path == prefix + "/" + rest
  {
    var front := prefix + "/";
    if front <= path {
      assert path == prefix + "/" + path[|front|..];
    }
  }

  /** strip_tar_prefix; None is a refusal. */
  function Strip(path: string, prefix: string): Option<Name> {
    if prefix == "" then Some(Below(path))
    else if !Within(path, prefix) then None
    else if path == prefix then Some(Root)
    else Some(Below(path[|prefix| + 1..]))
  }

  /** What is left of a path below a prefix is a path again, and together they are
      the path that was there. */
  lemma {:induction false} StrippedIsPath(path: string, prefix: string)
    requires IsPath(path) && Strip(path, prefix).Some? && Strip(path, prefix).value.Below?
    ensures IsPath(Strip(path, prefix).value.path)
    ensures prefix != "" ==> path == prefix + "/" + Strip(path, prefix).value.path
  {
    if prefix != "" {
      var rest := path[|prefix| + 1..];
      assert path == prefix + ['/'] + rest;
      SplitAppend(prefix, rest, '/');
      RestIsPlain(Split(prefix, '/'), Split(rest, '/'));
      RestStarts(rest);
    }
  }

  lemma {:induction false} RestIsPlain(a: seq<string>, b: seq<string>)
    requires AllPlain(a + b)
    ensures AllPlain(b)
  {
    assert forall i :: 0 <= i < |b| ==> (a + b)[|a| + i] == b[i];
  }

  lemma {:induction false} RestStarts(rest: string)
    requires AllPlain(Split(rest, '/'))
    ensures rest != "" && rest[0] != '/'
  {
    AllPlainStep(rest, IndexOf(rest, '/'));
  }

  /** Under a prefix the prefix itself becomes the root, what is behind it and a slash
      is kept, and nothing else is let by; without a prefix everything is kept. */
  lemma {:induction false} StripIff(path: string, prefix: string, rest: string)
    ensures Strip(path, prefix) == Some(Below(rest)) <==> path == if prefix == "" then rest else prefix + "/" + rest
    ensures Strip(path, prefix) == Some(Root) <==> prefix != "" && path == prefix
  {
    if prefix != "" && path == prefix + "/" + rest {
      assert path[|prefix| + 1..] == rest;
    }
  }

  /** Stripping does not merge two paths. */
  lemma {:induction false} StripIsInjective(a: string, b: string, prefix: string)
    requires Strip(a, prefix).Some? && Strip(a, prefix) == Strip(b, prefix)
    ensures a == b
  {
    if prefix != "" && a != prefix {
      assert a == prefix + "/" + a[|prefix| + 1..] && b == prefix + "/" + b[|prefix| + 1..];
    }
  }
}
