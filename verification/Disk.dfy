/**
  A directory that can lose its last changes in a crash, and the atomic steps of
  src/common.c on it: write a temporary, flush it, rename it, flush the directory.

  A change is pending until the directory is flushed. A crash keeps any part of the
  pending changes, in their order, and loses the rest; a rename is kept or lost as
  a whole. A file whose contents were not flushed before it was renamed may hold
  anything afterwards, which is what `synced` records.
*/
module Disk {
  import opened CStrings

  datatype Node = Blob(data: string, synced: bool) | Link(target: string) | Other

  type Names = map<string, Node>

  datatype Change = Set(name: string, node: Node) | Remove(name: string) | Rename(from: string, to: string, node: Node)

  function Apply(m: Names, c: Change): Names {
    match c
    case Set(name, node) => m[name := node]
    case Remove(name) => m - {name}
    case Rename(from, to, node) => (m - {from})[to := node]
  }

  datatype State = State(durable: Names, pending: seq<Change>)
  {
    /** What running programs see. */
    function Now(): Names { ApplyAll(durable, pending) }

    /** What a crash can leave. */
    function Images(): set<Names> { Crashes(durable, pending) }

    function After(c: Change): State { State(durable, pending + [c]) }
  }

  function ApplyAll(m: Names, cs: seq<Change>): Names {
    if cs == [] then m else Apply(ApplyAll(m, cs[..|cs| - 1]), cs[|cs| - 1])
  }

  function Crashes(m: Names, cs: seq<Change>): set<Names> {
    if cs == [] then {m}
    else
      var before := Crashes(m, cs[..|cs| - 1]);
      before + set image | image in before :: Apply(image, cs[|cs| - 1])
  }

  /** The changes that are kept, in their order. */
  function Selected(cs: seq<Change>, kept: seq<bool>): seq<Change>
    requires |kept| == |cs|
  {
    if cs == [] then []
    else
      var k := |cs| - 1;
      Selected(cs[..k], kept[..k]) + if kept[k] then [cs[k]] else []
  }

  ghost predicate Leaves(m: Names, cs: seq<Change>, image: Names, kept: seq<bool>) {
    |kept| == |cs| && ApplyAll(m, Selected(cs, kept)) == image
  }

  lemma {:induction false} CrashIsSelection(m: Names, cs: seq<Change>, image: Names) returns (kept: seq<bool>)
    requires image in Crashes(m, cs)
    ensures Leaves(m, cs, image, kept)
  {
    if cs == [] {
      return [];
    }
    var k := |cs| - 1;
    if image in Crashes(m, cs[..k]) {
      kept := CrashIsSelection(m, cs[..k], image);
      KeptOrLost(m, cs, image, kept);
      return kept + [false];
    }
    var before :| before in Crashes(m, cs[..k]) && image == Apply(before, cs[k]);
    kept := CrashIsSelection(m, cs[..k], before);
    KeptOrLost(m, cs, before, kept);
    return kept + [true];
  }

  lemma {:induction false} SelectionIsCrash(m: Names, cs: seq<Change>, kept: seq<bool>)
    requires |kept| == |cs|
    ensures ApplyAll(m, Selected(cs, kept)) in Crashes(m, cs)
  {
    if cs != [] {
      var k := |cs| - 1;
      SelectionIsCrash(m, cs[..k], kept[..k]);
      LastApplied(m, Selected(cs[..k], kept[..k]), cs[k]);
    }
  }

  /** A crash leaves what some of the changes make of the contents, any of them. */
  lemma {:induction false} CrashesIff(m: Names, cs: seq<Change>, image: Names)
    ensures image in Crashes(m, cs) <==> exists kept :: Leaves(m, cs, image, kept)
  {
    if image in Crashes(m, cs) {
      var kept := CrashIsSelection(m, cs, image);
    }
    forall kept | Leaves(m, cs, image, kept) ensures image in Crashes(m, cs) {
      SelectionIsCrash(m, cs, kept);
    }
  }

  lemma {:induction false} LastApplied(m: Names, cs: seq<Change>, c: Change)
    ensures ApplyAll(m, cs + [c]) == Apply(ApplyAll(m, cs), c) && ApplyAll(m, cs + []) == ApplyAll(m, cs)
  {
    assert (cs + [c])[..|cs|] == cs && cs + [] == cs;
  }

  lemma {:induction false} KeptOrLost(m: Names, cs: seq<Change>, before: Names, kept: seq<bool>)
    requires cs != [] && Leaves(m, cs[..|cs| - 1], before, kept)
    ensures Leaves(m, cs, before, kept + [false])
    ensures Leaves(m, cs, Apply(before, cs[|cs| - 1]), kept + [true])
  {
    var k := |cs| - 1;
    assert (kept + [true])[..k] == kept && (kept + [false])[..k] == kept;
    LastApplied(m, Selected(cs[..k], kept), cs[k]);
  }

  /** A claim about the contents of a directory. */
  type Claim = Names -> bool

  /** The claim holds whatever a crash keeps. */
  ghost predicate Always(s: State, claim: Claim) {
    forall image :: image in s.Images() ==> claim(image)
  }

  lemma {:induction false} NowIsImage(s: State)
    ensures s.Now() in s.Images()
    decreases |s.pending|
  {
    if s.pending != [] {
      NowIsImage(State(s.durable, s.pending[..|s.pending| - 1]));
    }
  }

  lemma {:induction false} AlwaysNow(s: State, claim: Claim)
    requires Always(s, claim)
    ensures claim(s.Now())
  {
    NowIsImage(s);
  }

  lemma {:induction false} AfterChange(s: State, c: Change)
    ensures s.After(c).Now() == Apply(s.Now(), c)
    ensures s.After(c).Images() == s.Images() + set image | image in s.Images() :: Apply(image, c)
  {
    assert s.After(c).pending[..|s.pending|] == s.pending;
  }

  /** A change that no claimed contents is spoilt by. */
  lemma {:induction false} AlwaysAfter(s: State, c: Change, claim: Claim)
    requires Always(s, claim) && forall m {:trigger claim(m)} :: claim(m) ==> claim(Apply(m, c))
    ensures Always(s.After(c), claim)
  {
    AfterChange(s, c);
  }

  /** Names that only the atomic steps use. */
  predicate IsTemporary(name: string) { name != "" && name[0] == '.' }

  /** bp_temp_path */
  function TemporaryName(name: string, pid: nat, counter: nat): (t: string)
    ensures IsTemporary(t)
  {
    ['.'] + name + ".tmp." + Decimal(pid) + ['.'] + Decimal(counter)
  }

  /** Two temporaries of one name have different names, unless process and number agree. */
  lemma {:induction false} TemporariesDiffer(name: string, pid: nat, counter: nat, pid': nat, counter': nat)
    requires TemporaryName(name, pid, counter) == TemporaryName(name, pid', counter')
    ensures pid == pid' && counter == counter'
  {
    var front := ['.'] + name + ".tmp.";
    var a, b := Decimal(pid) + ['.'] + Decimal(counter), Decimal(pid') + ['.'] + Decimal(counter');
    SameRest(front, a, b, TemporaryName(name, pid, counter));
    NoDot(pid);
    NoDot(pid');
    IndexOfFirst(Decimal(pid), '.', Decimal(counter));
    IndexOfFirst(Decimal(pid'), '.', Decimal(counter'));
    assert a[..|Decimal(pid)|] == Decimal(pid) && b[..|Decimal(pid')|] == Decimal(pid');
    assert a[|Decimal(pid)| + 1..] == Decimal(counter) && b[|Decimal(pid')| + 1..] == Decimal(counter');
    ValueOfDecimal(pid);
    ValueOfDecimal(pid');
    ValueOfDecimal(counter);
    ValueOfDecimal(counter');
  }

  lemma {:induction false} NoDot(n: nat)
    ensures '.' !in Decimal(n)
  {
    forall i | 0 <= i < |Decimal(n)| ensures Decimal(n)[i] != '.' {
      assert IsDigit(Decimal(n)[i], false);
    }
  }

  lemma {:induction false} SameRest(front: string, a: string, b: string, t: string)
    requires front + a == t && front + b == t
    ensures a == b
  {
    assert a == t[|front|..] && b == t[|front|..];
  }

  /** The claim does not depend on temporary files. */
  ghost predicate Blind(claim: Claim) {
    && (forall m, name, node {:trigger claim(m[name := node])} ::
          IsTemporary(name) && claim(m) ==> claim(m[name := node]))
    && (forall m, name {:trigger claim(m - {name})} :: IsTemporary(name) && claim(m) ==> claim(m - {name}))
  }

  /** The claim survives that a name gets this node, or that it goes. */
  ghost predicate Admits(claim: Claim, name: string, node: Node) {
    forall m {:trigger claim(m[name := node])} :: claim(m) ==> claim(m[name := node])
  }

  ghost predicate AdmitsRemoval(claim: Claim, name: string) {
    forall m {:trigger claim(m - {name})} :: claim(m) ==> claim(m - {name})
  }

  function Both(a: Claim, b: Claim): Claim { (m: Names) => a(m) && b(m) }

  lemma {:induction false} BothBlind(s: State, a: Claim, b: Claim)
    ensures Blind(a) && Blind(b) ==> Blind(Both(a, b))
    ensures Always(s, Both(a, b)) <==> Always(s, a) && Always(s, b)
  {
    assert forall image :: image in s.Images() && Always(s, Both(a, b)) ==> Both(a, b)(image);
  }

  /** After a flush there is one thing a crash can leave. */
  lemma {:induction false} SettledAlways(s: State, claim: Claim)
    requires s.pending == [] && claim(s.Now())
    ensures Always(s, claim)
  {
  }

  lemma {:induction false} SameButTwice(a: Names, b: Names, c: Names, s: set<string>, t: set<string>)
    requires SameBut(a, b, s) && SameBut(b, c, t)
    ensures SameBut(a, c, s + t)
  {
  }

  /** The same contents, but for temporary files and some names. */
  ghost predicate SameBut(a: Names, b: Names, names: set<string>) {
    forall n {:trigger n in a} {:trigger n in b} :: !IsTemporary(n) && n !in names ==>
      (n in a <==> n in b) && (n in a ==> a[n] == b[n])
  }

  /** The same contents, but for one name. */
  ghost predicate SameOutside(a: Names, b: Names, name: string) {
    forall n {:trigger n in a} {:trigger n in b} :: n != name ==> (n in a <==> n in b) && (n in a ==> a[n] == b[n])
  }

  /** No claim at all. */
  function Anything(): Claim { (m: Names) => true }

  lemma {:induction false} AnythingGoes(s: State)
    ensures Always(s, Anything()) && Blind(Anything())
    ensures forall name, node :: Admits(Anything(), name, node)
    ensures forall name :: AdmitsRemoval(Anything(), name)
  {
  }

  // ----- Histories

  /** h0 went on to h, and the claim held in every state on the way, whatever a
      crash would have kept. */
  ghost predicate Held(h0: seq<State>, h: seq<State>, claim: Claim) {
    h0 <= h && forall i :: |h0| <= i < |h| ==> Always(h[i], claim)
  }

  lemma {:induction false} HeldTwice(h0: seq<State>, h1: seq<State>, h2: seq<State>, claim: Claim)
    requires Held(h0, h1, claim) && Held(h1, h2, claim)
    ensures Held(h0, h2, claim)
  {
  }

  lemma {:induction false} HeldWeaker(h0: seq<State>, h: seq<State>, strong: Claim, weak: Claim)
    requires Held(h0, h, strong) && forall m {:trigger strong(m)} :: strong(m) ==> weak(m)
    ensures Held(h0, h, weak)
  {
  }

  /** Which calls may fail for reasons outside this model: any of them, those up to
      and including a rename but no flush or unlink, or none. */
  datatype Faults = AnyCall | UpToRename | NoCall

  /** No temporary file is left over. */
  predicate NoTemporaries(m: Names) { forall n :: n in m ==> !IsTemporary(n) }

  lemma {:induction false} SameWithoutTemporaries(a: Names, b: Names)
    requires SameBut(a, b, {}) && NoTemporaries(a) && NoTemporaries(b)
    ensures a == b
  {
    forall n ensures n in a <==> n in b {
    }
    assert a.Keys == b.Keys;
  }

  /** Nothing was flushed since, and nothing taken back. */
  predicate Later(s: State, s': State) { s.durable == s'.durable && s.pending <= s'.pending }

  lemma {:induction false} LaterImages(s: State, s': State)
    requires Later(s, s')
    ensures s.Images() <= s'.Images()
    decreases |s'.pending|
  {
    if s.pending == s'.pending {
      assert s == s';
    } else {
      var k := |s'.pending| - 1;
      var before := State(s'.durable, s'.pending[..k]);
      LaterImages(s, before);
      assert s' == before.After(s'.pending[k]);
      AfterChange(before, s'.pending[k]);
    }
  }

  /** On the way from s there was a state behind the rename of a temporary, and
      nothing had been flushed until then. */
  ghost predicate Renamed(s: State, h0: seq<State>, h: seq<State>, name: string, node: Node) {
    |h0| <= |h| && exists s', temporary {:trigger s'.After(Rename(temporary, name, node))} ::
      Later(s, s') && IsTemporary(temporary) && s'.After(Rename(temporary, name, node)) in h[|h0|..]
  }

  /** The first state behind h0. */
  predicate Follows(h0: seq<State>, h: seq<State>, s: State) { |h0| < |h| && h[|h0|] == s }

  lemma {:induction false} RenameSeen(s: State, s': State, h0: seq<State>, h1: seq<State>, h: seq<State>,
      temporary: string, name: string, node: Node, renamed: bool)
    requires Later(s, s') && IsTemporary(temporary) && h0 <= h1
    requires h1 <= h && (renamed ==> Follows(h1, h, s'.After(Rename(temporary, name, node))))
    ensures renamed ==> Renamed(s, h0, h, name, node)
  {
    if renamed {
      var next := s'.After(Rename(temporary, name, node));
      assert h[|h1|] == next && h[|h0|..][|h1| - |h0|] == next;
    }
  }

  class Directory {
    const pid: nat
    const faults: Faults
    var state: State
    var counter: nat
    /** Every state so far. */
    var history: seq<State>

    constructor (names: Names, pid: nat, faults: Faults)
      ensures state == State(names, []) && history == [state] && counter == 0
      ensures this.pid == pid && this.faults == faults
    {
      this.pid, this.faults := pid, faults;
      state := State(names, []);
      counter := 0;
      history := [State(names, [])];
    }

    /** Flushes and unlinks do not fail. */
    predicate Lasting() { faults != AnyCall }

    predicate Reliable() { faults == NoCall }

    /** Nothing is left over, and nothing will be. */
    ghost predicate Neat()
      reads this
    {
      Lasting() && NoTemporaries(state.Now())
    }

    /** One change, not flushed yet. */
    method Do(c: Change, ghost claim: Claim)
      requires Always(state, claim) && forall m {:trigger claim(m)} :: claim(m) ==> claim(Apply(m, c))
      modifies `state, `history
      ensures state == old(state).After(c) && state.Now() == Apply(old(state).Now(), c)
      ensures Later(old(state), state)
      ensures Always(state, claim) && Held(old(history), history, claim) && history == old(history) + [state]
    {
      AlwaysAfter(state, c, claim);
      AfterChange(state, c);
      state := state.After(c);
      history := history + [state];
    }

    /** fsync of the directory. If it fails, nothing is known to be flushed. */
    method Sync(ghost claim: Claim) returns (ok: bool)
      requires Always(state, claim)
      modifies `state, `history
      ensures state.Now() == old(state).Now() && state == if ok then State(old(state).Now(), []) else old(state)
      ensures Always(state, claim) && Held(old(history), history, claim)
      ensures Lasting() ==> ok
    {
      ok := true;
      if !Lasting() {
        ok := *;
      }
      if ok {
        AlwaysNow(state, claim);
        state := State(state.Now(), []);
        history := history + [state];
      }
    }

    /** unlink */
    method Unlink(name: string, ghost claim: Claim) returns (ok: bool)
      requires Always(state, claim) && AdmitsRemoval(claim, name)
      modifies `state, `history
      ensures state.Now() == if ok then old(state).Now() - {name} else old(state).Now()
      ensures ok ==> name in old(state).Now()
      ensures !ok ==> state == old(state)
      ensures Always(state, claim) && Held(old(history), history, claim)
      ensures Lasting() ==> (ok <==> name in old(state).Now())
    {
      ok := name in state.Now();
      if !Lasting() {
        ok := *;
        ok := ok && name in state.Now();
      }
      if ok {
        Do(Remove(name), claim);
      }
    }

    /** rename of a file to another name. */
    method Move(from: string, to: string, ghost claim: Claim) returns (ok: bool)
      requires from in state.Now() && Always(state, claim)
      requires forall m {:trigger claim(m)} :: claim(m) ==> claim(Apply(m, Rename(from, to, state.Now()[from])))
      modifies `state, `history
      ensures state.Now() == if ok then Apply(old(state).Now(), Rename(from, to, old(state).Now()[from]))
                             else old(state).Now()
      ensures Always(state, claim) && Held(old(history), history, claim)
      ensures Reliable() ==> ok
    {
      ok := true;
      if !Reliable() {
        ok := *;
      }
      if ok {
        Do(Rename(from, to, state.Now()[from]), claim);
      }
    }

    /** A machine that comes up again, with what the crash left. */
    method Restart(names: Names, ghost claim: Claim)
      requires claim(names)
      modifies `state, `history
      ensures state == State(names, []) && Always(state, claim) && Held(old(history), history, claim)
    {
      state := State(names, []);
      history := history + [state];
    }

    // ----- Temporaries

    /** open with O_CREAT and O_EXCL, or symlink, or link, under a temporary name. */
    method CreateTemporary(name: string, node: Node, ghost claim: Claim) returns (ok: bool, temporary: string)
      requires Always(state, claim) && Blind(claim)
      modifies this
      ensures IsTemporary(temporary) && (ok ==> temporary !in old(state).Now())
      ensures state.Now() == if ok then old(state).Now()[temporary := node] else old(state).Now()
      ensures Later(old(state), state)
      ensures Always(state, claim) && Held(old(history), history, claim)
      ensures Reliable() && NoTemporaries(old(state).Now()) ==> ok
    {
      temporary := TemporaryName(name, pid, counter);
      counter := counter + 1;
      ok := temporary !in state.Now();
      if !Reliable() {
        ok := *;
        ok := ok && temporary !in state.Now();
      }
      if ok {
        Do(Set(temporary, node), claim);
      }
    }

    /** write or fsync: a temporary has these contents now. */
    method Overwrite(temporary: string, node: Node, ghost start: Names, ghost claim: Claim)
      requires Always(state, claim) && Blind(claim) && IsTemporary(temporary)
      requires SameOutside(start, state.Now(), temporary)
      modifies `state, `history
      ensures state.Now() == start[temporary := node] && SameOutside(start, state.Now(), temporary)
      ensures Later(old(state), state)
      ensures Always(state, claim) && Held(old(history), history, claim)
    {
      Do(Set(temporary, node), claim);
    }

    /** bp_write_all, fchmod and fsync: writes may take less than they are given. */
    method FillTemporary(temporary: string, data: string, ghost claim: Claim) returns (ok: bool)
      requires Always(state, claim) && Blind(claim) && IsTemporary(temporary)
      modifies `state, `history
      ensures ok ==> state.Now() == old(state).Now()[temporary := Blob(data, true)]
      ensures SameOutside(old(state).Now(), state.Now(), temporary)
      ensures Later(old(state), state)
      ensures Always(state, claim) && Held(old(history), history, claim)
      ensures Reliable() ==> ok
    {
      ghost var start := state.Now();
      var written := 0;
      while written < |data|
        invariant 0 <= written <= |data|
        invariant SameOutside(start, state.Now(), temporary) && Later(old(state), state)
        invariant Always(state, claim) && Held(old(history), history, claim)
      {
        var count: int := *;
        if count <= 0 || written + count > |data| {
          if !Reliable() {
            return false;
          }
          count := |data| - written;
        }
        written := written + count;
        Overwrite(temporary, Blob(data[..written], false), start, claim);
      }
      ok := true;
      if !Reliable() {
        ok := *;
      }
      if ok {
        Overwrite(temporary, Blob(data, true), start, claim);
      }
    }

    /** A temporary with these contents, flushed. */
    method WriteTemporary(name: string, data: string, ghost claim: Claim) returns (ok: bool, temporary: string)
      requires Always(state, claim) && Blind(claim)
      modifies this
      ensures IsTemporary(temporary) && SameOutside(old(state).Now(), state.Now(), temporary)
      ensures Later(old(state), state)
      ensures ok ==> temporary !in old(state).Now() && state.Now() == old(state).Now()[temporary := Blob(data, true)]
      ensures Always(state, claim) && Held(old(history), history, claim)
      ensures Reliable() && NoTemporaries(old(state).Now()) ==> ok
    {
      ok, temporary := CreateTemporary(name, Blob("", false), claim);
      if ok {
        ok := FillTemporary(temporary, data, claim);
      }
    }

    /** rename of a temporary, followed by the flush of the directory. */
    method RenameInto(temporary: string, name: string, node: Node, ghost claim: Claim) returns (ok: bool, renamed: bool)
      requires Always(state, claim) && Blind(claim) && Admits(claim, name, node)
      requires IsTemporary(temporary) && !IsTemporary(name) && temporary in state.Now()
      requires state.Now()[temporary] == node
      modifies this
      ensures renamed ==> state.Now() == (old(state).Now() - {temporary})[name := node]
      ensures renamed ==> Follows(old(history), history, old(state).After(Rename(temporary, name, node)))
      ensures !renamed ==> state == old(state) && history == old(history)
      ensures ok ==> renamed && state.pending == []
      ensures Always(state, claim) && Held(old(history), history, claim)
      ensures Lasting() && renamed ==> ok
      ensures Reliable() ==> ok
    {
      if !Reliable() {
        ok := *;
        if !ok {
          return false, false;
        }
      }
      Do(Rename(temporary, name, node), claim);
      renamed := true;
      ok := Sync(claim);
    }

    /** The same, and the removal of the temporary if that fails. */
    method RenameOrDrop(temporary: string, name: string, node: Node, ghost claim: Claim)
      returns (ok: bool, renamed: bool)
      requires Always(state, claim) && Blind(claim) && Admits(claim, name, node)
      requires IsTemporary(temporary) && !IsTemporary(name) && temporary in state.Now()
      requires state.Now()[temporary] == node
      modifies this
      ensures renamed ==> state.Now() == (old(state).Now() - {temporary})[name := node]
      ensures renamed ==> Follows(old(history), history, old(state).After(Rename(temporary, name, node)))
      ensures !renamed ==> state.Now() == old(state).Now() || state.Now() == old(state).Now() - {temporary}
      ensures ok ==> renamed && state.pending == []
      ensures Always(state, claim) && Held(old(history), history, claim)
      ensures Lasting() ==> ok == renamed && (!renamed ==> state.Now() == old(state).Now() - {temporary})
      ensures Reliable() ==> ok
    {
      ok, renamed := RenameInto(temporary, name, node, claim);
      if !ok {
        var ignored := Unlink(temporary, claim);
      }
    }

    // ----- The steps of src/common.c

    /** bp_atomic_write, and bp_atomic_copy of a source with these contents. A name
        gets the new contents as a whole or keeps what it had; a success lasts and
        changes nothing else. */
    method AtomicWrite(name: string, data: string, ghost claim: Claim) returns (ok: bool, renamed: bool)
      requires Always(state, claim) && Blind(claim) && Admits(claim, name, Blob(data, true)) && !IsTemporary(name)
      modifies this
      ensures SameBut(old(state).Now(), state.Now(), if renamed then {name} else {})
      ensures renamed ==> state.Now() == old(state).Now()[name := Blob(data, true)]
      ensures renamed ==> Renamed(old(state), old(history), history, name, Blob(data, true))
      ensures ok ==> renamed && state.pending == []
      ensures Always(state, claim) && Held(old(history), history, claim)
      ensures Lasting() && renamed ==> ok
      ensures Reliable() && NoTemporaries(old(state).Now()) ==> ok
      ensures old(Neat()) ==> Neat() && (!ok ==> state.Now() == old(state).Now())
    {
      renamed := false;
      var temporary;
      ok, temporary := WriteTemporary(name, data, claim);
      if ok {
        ghost var h, s := history, state;
        ok, renamed := RenameOrDrop(temporary, name, Blob(data, true), claim);
        RenameSeen(old(state), s, old(history), h, history, temporary, name, Blob(data, true), renamed);
      } else {
        var ignored := Unlink(temporary, claim);
      }
    }

    /** bp_atomic_symlink and bp_atomic_hardlink: a new name for a link or a file.
        What was certain before stays certain unless the rename was made. */
    method AtomicLink(name: string, node: Node, ghost before: Claim, ghost claim: Claim)
      returns (ok: bool, renamed: bool)
      requires Always(state, before) && Blind(before)
      requires Always(state, claim) && Blind(claim) && Admits(claim, name, node) && !IsTemporary(name)
      modifies this
      ensures SameBut(old(state).Now(), state.Now(), if renamed then {name} else {})
      ensures renamed ==> state.Now() == old(state).Now()[name := node]
      ensures ok ==> renamed && state.pending == []
      ensures Always(state, claim) && Held(old(history), history, claim)
      ensures !renamed ==> Always(state, before)
      ensures Lasting() && renamed ==> ok
      ensures Reliable() && NoTemporaries(old(state).Now()) ==> ok
      ensures old(Neat()) ==> Neat() && (!ok ==> state.Now() == old(state).Now())
    {
      ghost var both := Both(before, claim);
      BothBlind(state, before, claim);
      var temporary;
      ok, temporary := CreateTemporary(name, node, both);
      HeldWeaker(old(history), history, both, claim);
      if !ok {
        return false, false;
      }
      ghost var h := history;
      ok, renamed := RenameInto(temporary, name, node, claim);
      if !renamed {
        var ignored := Unlink(temporary, both);
        HeldWeaker(h, history, both, claim);
      }
    }

    /** bp_remove_synced. Removing what is not there succeeds at once, without a flush. */
    method RemoveSynced(name: string, ghost claim: Claim) returns (ok: bool, removed: bool)
      requires Always(state, claim) && AdmitsRemoval(claim, name)
      modifies this
      ensures state.Now() == if removed then old(state).Now() - {name} else old(state).Now()
      ensures removed ==> name in old(state).Now()
      ensures ok ==> name !in state.Now() && (removed ==> state.pending == [])
      ensures !removed ==> state == old(state)
      ensures Always(state, claim) && Held(old(history), history, claim)
      ensures Lasting() ==> ok
      ensures old(Neat()) ==> Neat()
    {
      removed := Unlink(name, claim);
      if !removed {
        ok := name !in state.Now();
        if !Lasting() {
          ok := *;
          ok := ok && name !in state.Now();
        }
        return;
      }
      ok := Sync(claim);
    }
  }
}
