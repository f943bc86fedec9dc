/**
  The two marker files that ask for the recovery menu at boot: enable, disable, and
  the consumption of a one-shot request by stage 1, with crashes anywhere.
*/
module Modes {
  import opened CStrings
  import opened Disk

  /** What the marker files ask for at the next boot. */
  datatype Mode = Off | Once | Persistent

  datatype Flags = Flags(enable: string, onlyOnce: string)
  {
    predicate Usable() { enable != onlyOnce && !IsTemporary(enable) && !IsTemporary(onlyOnce) }

    function ModeOf(m: Names): Mode {
      if enable !in m then Off else if onlyOnce in m then Once else Persistent
    }

    lemma {:induction false} ModeOfIff(m: Names)
      ensures ModeOf(m) == Off <==> enable !in m
      ensures ModeOf(m) == Once <==> enable in m && onlyOnce in m
      ensures ModeOf(m) == Persistent <==> enable in m && onlyOnce !in m
    {
    }

    /** The modes that a crash can leave. */
    function ModesOf(s: State): set<Mode> { set image | image in s.Images() :: ModeOf(image) }

    // ----- Claims

    function Among(modes: set<Mode>): Claim { (m: Names) => ModeOf(m) in modes }

    function AmongWith(modes: set<Mode>): Claim { (m: Names) => ModeOf(m) in modes && onlyOnce in m }

    function AmongWithout(modes: set<Mode>): Claim { (m: Names) => ModeOf(m) in modes && onlyOnce !in m }

    lemma {:induction false} ClaimsAreBlind(modes: set<Mode>)
      requires Usable()
      ensures Blind(Among(modes)) && Blind(AmongWith(modes)) && Blind(AmongWithout(modes))
    {
    }

    lemma {:induction false} WritesAdmitted(modes: set<Mode>, node: Node)
      requires Usable()
      ensures Once in modes ==> Admits(Among(modes), onlyOnce, node) && Admits(AmongWith(modes), enable, node)
      ensures Persistent in modes ==> Admits(AmongWithout(modes), enable, node)
      ensures Once in modes && Persistent in modes ==> Admits(Among(modes), enable, node)
    {
    }

    lemma {:induction false} RemovalsAdmitted(modes: set<Mode>)
      requires Usable()
      ensures Persistent in modes ==> AdmitsRemoval(Among(modes), onlyOnce)
      ensures Off in modes ==> AdmitsRemoval(Among(modes), enable)
    {
    }

    lemma {:induction false} OldModes(s: State, modes: set<Mode>)
      requires ModesOf(s) <= modes
      ensures Always(s, Among(modes)) && ModeOf(s.Now()) in modes
    {
      NowIsImage(s);
      forall image | image in s.Images() ensures Among(modes)(image) {
        assert ModeOf(image) in ModesOf(s);
      }
    }

    lemma {:induction false} Weaken(h0: seq<State>, h: seq<State>, modes: set<Mode>)
      ensures Held(h0, h, AmongWith(modes)) ==> Held(h0, h, Among(modes))
      ensures Held(h0, h, AmongWithout(modes)) ==> Held(h0, h, Among(modes))
    {
      if Held(h0, h, AmongWith(modes)) {
        HeldWeaker(h0, h, AmongWith(modes), Among(modes));
      }
      if Held(h0, h, AmongWithout(modes)) {
        HeldWeaker(h0, h, AmongWithout(modes), Among(modes));
      }
    }

    // ----- enable

    /** enable --once: on the way there is the old mode or the new one. */
    method EnableOnce(d: Directory) returns (ok: bool)
      requires Usable()
      modifies d
      ensures Held(old(d.history), d.history, Among(ModesOf(old(d.state)) + {Once}))
      ensures ModesOf(d.state) <= ModesOf(old(d.state)) + {Once}
      ensures ok ==> ModesOf(d.state) == {Once}
      ensures ok ==> d.state.Now() == old(d.state).Now()[onlyOnce := Blob("", true)][enable := Blob("", true)]
      ensures d.Reliable() && NoTemporaries(old(d.state).Now()) ==> ok
    {
      ghost var modes := ModesOf(d.state) + {Once};
      ClaimsAreBlind(modes);
      WritesAdmitted(modes, Blob("", true));
      OldModes(d.state, modes);
      var renamed;
      ok, renamed := d.AtomicWrite(onlyOnce, "", Among(modes));
      if ok {
        ghost var h := d.history;
        AlwaysNow(d.state, Among(modes));
        SettledAlways(d.state, AmongWith(modes));
        ok, renamed := d.AtomicWrite(enable, "", AmongWith(modes));
        Weaken(h, d.history, modes);
        HeldTwice(old(d.history), h, d.history, Among(modes));
        if ok {
          AlwaysNow(d.state, AmongWith(modes));
          OnlyNow(d.state);
        }
      }
    }

    lemma {:induction false} OnlyNow(s: State)
      requires s.pending == []
      ensures ModesOf(s) == {ModeOf(s.Now())}
    {
      assert s.Images() == {s.Now()};
    }

    /** The request for one time only is there and will be removed with a flush, or
        it is gone for good, or a crash could bring back a one-shot request anyway. */
    ghost predicate Decided(s: State) {
      onlyOnce in s.Now() || Once in ModesOf(s) || forall image :: image in s.Images() ==> onlyOnce !in image
    }

    /** When the removal is skipped because the file is already gone, creating the
        enable file keeps to the old modes and the new one exactly when Decided. */
    lemma {:induction false} SkippedRemoval(s: State, temporary: string, node: Node)
      requires Usable() && IsTemporary(temporary) && onlyOnce !in s.Now()
      ensures ModesOf(s.After(Rename(temporary, enable, node))) <= ModesOf(s) + {Persistent} <==> Decided(s)
    {
      var c := Rename(temporary, enable, node);
      AfterChange(s, c);
      if !Decided(s) {
        var image :| image in s.Images() && onlyOnce in image;
        assert Apply(image, c) in s.After(c).Images();
        assert ModeOf(Apply(image, c)) == Once && Once in ModesOf(s.After(c));
      } else {
        forall image | image in s.After(c).Images() ensures ModeOf(image) in ModesOf(s) + {Persistent} {
          if image in s.Images() {
          } else {
            var before :| before in s.Images() && image == Apply(before, c);
          }
        }
      }
    }

    /** A removal of the one-shot request that was never flushed, with nothing enabled:
        the retry of enable --persistent can be cut down to a one-shot request. */
    lemma {:induction false} RetryCounterexample(temporary: string)
      requires Usable() && IsTemporary(temporary)
      ensures var s := State(map[onlyOnce := Blob("", true)], [Remove(onlyOnce)]);
              ModesOf(s) == {Off} && Once in ModesOf(s.After(Rename(temporary, enable, Blob("", true))))
    {
      var start := State(map[onlyOnce := Blob("", true)], []);
      var s := start.After(Remove(onlyOnce));
      assert s == State(map[onlyOnce := Blob("", true)], [Remove(onlyOnce)]);
      AfterChange(start, Remove(onlyOnce));
      assert start.Images() == {map[onlyOnce := Blob("", true)]};
      forall image | image in s.Images() ensures ModeOf(image) == Off {
      }
      NowIsImage(s);
      assert ModeOf(s.Now()) in ModesOf(s);
      SkippedRemoval(s, temporary, Blob("", true));
      var m := map[onlyOnce := Blob("", true)];
      AfterChange(s, Rename(temporary, enable, Blob("", true)));
      var creation := Rename(temporary, enable, Blob("", true));
      assert Apply(m, creation) in s.After(creation).Images();
    }

    /** The claim to go on with, behind the removal. */
    lemma {:induction false} Proceed(before: State, now: State, modes: set<Mode>, node: Node) returns (claim: Claim)
      requires Usable() && ModesOf(before) <= modes && Persistent in modes && Always(now, Among(modes))
      requires onlyOnce !in now.Now()
      requires now == before || now.pending == []
      ensures Always(now, claim) && Blind(claim) && Admits(claim, enable, node)
      ensures Decided(before) ==> claim == Among(modes) || claim == AmongWithout(modes)
    {
      ClaimsAreBlind(modes);
      WritesAdmitted(modes, node);
      AnythingGoes(now);
      if now.pending == [] {
        AlwaysNow(now, Among(modes));
        SettledAlways(now, AmongWithout(modes));
        claim := AmongWithout(modes);
      } else if Once in modes {
        claim := Among(modes);
      } else if Decided(before) {
        forall image | image in now.Images() ensures AmongWithout(modes)(image) {
          assert Among(modes)(image);
        }
        claim := AmongWithout(modes);
      } else {
        claim := Anything();
      }
    }

    /** Without Decided, a rename of the enable file leaves the allowed modes on the way. */
    lemma {:induction false} UndecidedRename(before: State, h0: seq<State>, h: seq<State>, node: Node)
      requires Usable() && !Decided(before) && Renamed(before, h0, h, enable, node)
      ensures !Held(h0, h, Among(ModesOf(before) + {Persistent}))
    {
      var modes := ModesOf(before) + {Persistent};
      var s', temporary :| Later(before, s') && IsTemporary(temporary)
                           && s'.After(Rename(temporary, enable, node)) in h[|h0|..];
      var c := Rename(temporary, enable, node);
      var i :| 0 <= i < |h[|h0|..]| && h[|h0|..][i] == s'.After(c);
      SkippedRemoval(before, temporary, node);
      LaterImages(before, s');
      AfterChange(before, c);
      AfterChange(s', c);
      if Always(s'.After(c), Among(modes)) {
        forall image | image in before.After(c).Images() ensures ModeOf(image) in modes {
          assert Among(modes)(image);
        }
      }
      assert h[|h0| + i] == s'.After(c);
    }

    /** enable --persistent. If it gets as far as the enable file, then the modes on
        the way are the old ones and the new one exactly when Decided. */
    method EnablePersistently(d: Directory) returns (ok: bool, renamed: bool)
      requires Usable()
      modifies d
      ensures old(Decided(d.state)) ==> Held(old(d.history), d.history, Among(ModesOf(old(d.state)) + {Persistent}))
      ensures renamed && !old(Decided(d.state)) ==>
                !Held(old(d.history), d.history, Among(ModesOf(old(d.state)) + {Persistent}))
      ensures ok ==> renamed && ModesOf(d.state) == {Persistent}
      ensures ok ==> d.state.Now() == (old(d.state).Now() - {onlyOnce})[enable := Blob("", true)]
      ensures d.Reliable() && NoTemporaries(old(d.state).Now()) ==> ok
    {
      ghost var modes := ModesOf(d.state) + {Persistent};
      ghost var before := d.state;
      RemovalsAdmitted(modes);
      OldModes(d.state, modes);
      var removed;
      renamed := false;
      ok, removed := d.RemoveSynced(onlyOnce, Among(modes));
      if ok {
        ghost var h := d.history;
        ok, renamed := CreateEnable(d, before, modes);
        if Decided(before) {
          HeldTwice(old(d.history), h, d.history, Among(modes));
        }
      }
    }

    /** The enable file of enable --persistent, behind the removal. */
    method CreateEnable(d: Directory, ghost before: State, ghost modes: set<Mode>) returns (ok: bool, renamed: bool)
      requires Usable() && modes == ModesOf(before) + {Persistent}
      requires Always(d.state, Among(modes)) && onlyOnce !in d.state.Now()
      requires d.state == before || (d.state.pending == [] && onlyOnce in before.Now())
      modifies d
      ensures Decided(before) ==> Held(old(d.history), d.history, Among(modes))
      ensures renamed && !Decided(before) ==> !Held(old(d.history), d.history, Among(modes))
      ensures old(d.history) <= d.history
      ensures ok ==> ModesOf(d.state) == {Persistent} && d.state.Now() == old(d.state).Now()[enable := Blob("", true)]
      ensures ok ==> renamed
      ensures d.Reliable() && NoTemporaries(old(d.state).Now()) ==> ok
    {
      ghost var claim := Proceed(before, d.state, modes, Blob("", true));
      ok, renamed := d.AtomicWrite(enable, "", claim);
      if Decided(before) {
        Weaken(old(d.history), d.history, modes);
      } else if renamed {
        UndecidedRename(before, old(d.history), d.history, Blob("", true));
      }
      if ok {
        OnlyNow(d.state);
      }
    }

    // ----- disable and stage 1

    /** disable: on the way there is the old mode or none. A success lasts exactly if
        it found the file, or if nothing was enabled whatever a crash would take. */
    method Disable(d: Directory) returns (ok: bool)
      requires Usable()
      modifies d
      ensures Held(old(d.history), d.history, Among(ModesOf(old(d.state)) + {Off}))
      ensures ModesOf(d.state) <= ModesOf(old(d.state)) + {Off}
      ensures ok ==> d.state.Now() == old(d.state).Now() - {enable} && ModeOf(d.state.Now()) == Off
      ensures d.Lasting() ==> ok
      ensures ok ==> (ModesOf(d.state) == {Off} <==> enable in old(d.state).Now() || ModesOf(old(d.state)) == {Off})
    {
      ghost var modes := ModesOf(d.state) + {Off};
      RemovalsAdmitted(modes);
      OldModes(d.state, modes);
      var removed;
      ok, removed := d.RemoveSynced(enable, Among(modes));
      if d.state.pending == [] {
        OnlyNow(d.state);
      }
    }

    /** burning-init and stage 1 at a boot: whether the files ask for the menu, and
        the removal of a one-shot request before the menu is shown. Without a console
        the original init is started before any of that. */
    method Boot(d: Directory, console: bool) returns (menu: bool, failed: bool)
      requires Usable()
      modifies d
      ensures Held(old(d.history), d.history, Among(ModesOf(old(d.state)) + {Off}))
      ensures menu <==> console && ModeOf(old(d.state).Now()) != Off
      ensures d.Lasting() ==> !failed
      ensures !console || ModeOf(old(d.state).Now()) != Once ==> !failed && d.state == old(d.state)
      ensures console && ModeOf(old(d.state).Now()) == Once && !failed ==> ModesOf(d.state) == {Off}
      ensures Always(d.state, Among(ModesOf(old(d.state)) + {Off}))
    {
      OldModes(d.state, ModesOf(d.state) + {Off});
      menu, failed := console && enable in d.state.Now(), false;
      if console && enable in d.state.Now() && onlyOnce in d.state.Now() {
        RemovalsAdmitted(ModesOf(d.state) + {Off});
        var ok, removed := d.RemoveSynced(enable, Among(ModesOf(d.state) + {Off}));
        failed := !ok;
        if ok {
          OnlyNow(d.state);
        }
      }
    }

    lemma {:induction false} ModesFromClaim(s: State, modes: set<Mode>)
      requires Always(s, Among(modes))
      ensures ModesOf(s) <= modes
    {
      forall image | image in s.Images() ensures ModeOf(image) in modes {
        assert Among(modes)(image);
      }
    }

    /** A boot and the crash that ends it, if one does: in the state before the boot
        or in any state on the way. The menu is shown unless the crash comes first. */
    method TakeBoot(d: Directory, step: BootStep) returns (menu: bool, failed: bool)
      requires Usable()
      modifies d
      ensures menu ==> ModeOf(old(d.state).Now()) != Off
      ensures menu && ModeOf(old(d.state).Now()) == Once && !failed ==> ModesOf(d.state) <= {Off}
      ensures ModesOf(d.state) <= ModesOf(old(d.state)) + {Off}
      ensures d.Lasting() ==> !failed
    {
      ghost var modes := ModesOf(d.state) + {Off};
      var before, from := d.state, |d.history|;
      OldModes(d.state, modes);
      menu, failed := Boot(d, step.console);
      ModesFromClaim(d.state, modes);
      if step.crash.Some? {
        var crash := step.crash.value;
        if crash.image in d.state.Images() {
          menu := menu && crash.shown;
          Reboot(d, crash.image, d.state);
        } else if crash.image in before.Images() {
          menu := false;
          Reboot(d, crash.image, before);
        } else if from <= crash.at < |d.history| && crash.image in d.history[crash.at].Images() {
          menu := false;
          ModesFromClaim(d.history[crash.at], modes);
          Reboot(d, crash.image, d.history[crash.at]);
        }
      }
    }

    /** One enable --once is good for one menu, and one more for every removal that
        failed, however often the machine boots and crashes, also inside a boot. */
    method Boots(d: Directory, steps: seq<BootStep>) returns (menus: nat, failures: nat)
      requires Usable() && ModesOf(d.state) <= {Off, Once}
      modifies d
      ensures menus <= 1 + failures
      ensures d.Lasting() ==> failures == 0
    {
      menus, failures := 0, 0;
      for i := 0 to |steps|
        invariant ModesOf(d.state) <= {Off, Once} && menus <= failures + 1
        invariant menus == failures + 1 ==> ModesOf(d.state) <= {Off}
        invariant d.Lasting() ==> failures == 0
      {
        OldModes(d.state, ModesOf(d.state));
        var menu, failed := TakeBoot(d, steps[i]);
        menus := menus + if menu then 1 else 0;
        failures := failures + if failed then 1 else 0;
      }
    }

    /** enable --once or disable, and the crash that ends it, if one does. */
    method TakeCommand(d: Directory, enabling: bool, crash: Option<Stop>)
      requires Usable()
      modifies d
      ensures ModesOf(d.state) <= ModesOf(old(d.state)) + {if enabling then Once else Off}
    {
      ghost var modes := ModesOf(d.state) + {if enabling then Once else Off};
      var before, from := d.state, |d.history|;
      var ok;
      if enabling {
        ok := EnableOnce(d);
      } else {
        ok := Disable(d);
      }
      if crash.Some? {
        var at, image := crash.value.at, crash.value.image;
        if image in d.state.Images() {
          Reboot(d, image, d.state);
        } else if image in before.Images() {
          Reboot(d, image, before);
        } else if from <= at < |d.history| && image in d.history[at].Images() {
          ModesFromClaim(d.history[at], modes);
          Reboot(d, image, d.history[at]);
        }
      }
    }

    /** However enable --once, disable and boots follow on each other, and wherever
        crashes cut them short: one menu for every request, one more for a request
        that there was before, and one more for every removal that failed. */
    method Run(d: Directory, steps: seq<Step>) returns (menus: nat, failures: nat)
      requires Usable() && ModesOf(d.state) <= {Off, Once}
      modifies d
      ensures menus <= (if Once in ModesOf(old(d.state)) then 1 else 0) + Requests(steps) + failures
      ensures d.Lasting() ==> failures == 0
    {
      menus, failures := 0, 0;
      ghost var first := if Once in ModesOf(d.state) then 1 else 0;
      ghost var requests := first;
      for i := 0 to |steps|
        invariant ModesOf(d.state) <= {Off, Once} && requests == first + Requests(steps[..i])
        invariant menus <= requests + failures
        invariant menus == requests + failures ==> ModesOf(d.state) <= {Off}
        invariant d.Lasting() ==> failures == 0
      {
        assert steps[..i + 1][..i] == steps[..i];
        OldModes(d.state, ModesOf(d.state));
        match steps[i] {
          case Request(crash) =>
            TakeCommand(d, true, crash);
            requests := requests + 1;
          case Withdraw(crash) =>
            TakeCommand(d, false, crash);
          case Start(boot) =>
            var menu, failed := TakeBoot(d, boot);
            menus := menus + if menu then 1 else 0;
            failures := failures + if failed then 1 else 0;
        }
      }
      assert steps[..|steps|] == steps;
    }

    /** The machine comes up with what a crash in this state left. */
    method Reboot(d: Directory, image: Names, ghost stopped: State)
      requires image in stopped.Images()
      modifies d
      ensures ModesOf(d.state) <= ModesOf(stopped)
    {
      assert ModeOf(image) in ModesOf(stopped);
      d.Restart(image, Anything());
      OnlyNow(d.state);
    }
  }

  /** Whether the console opens, and the crash that ends the boot. */
  datatype BootStep = BootStep(console: bool, crash: Option<Stop>)

  /** The state in which the machine stops, what is left of it, and whether the menu
      had been shown when it stopped at the end of the boot. */
  datatype Stop = Stop(at: nat, image: Names, shown: bool)

  /** enable --once, disable, or a boot. */
  datatype Step = Request(crash: Option<Stop>) | Withdraw(crash: Option<Stop>) | Start(boot: BootStep)

  /** How many times a menu is asked for. */
  function Requests(steps: seq<Step>): nat {
    if steps == [] then 0 else Requests(steps[..|steps| - 1]) + if steps[|steps| - 1].Request? then 1 else 0
  }

  function StandardFlags(): Flags { Flags("enable", "onlyOnce") }

  lemma {:induction false} StandardFlagsAreUsable()
    ensures StandardFlags().Usable()
  {
    assert |StandardFlags().enable| == 6 && |StandardFlags().onlyOnce| == 8;
  }
}
