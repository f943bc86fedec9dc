/**
  bp_install with its rollback, bp_uninstall, and what any sequence of them leaves
  of the boot chain, when it may be cut short by a crash at any change.
*/
module Installation {
  import opened CStrings
  import opened Disk
  import opened StateFile

  /** The directory of init, the names in it and in /etc/BurningProcess, and the path
      of the dispatcher, to which the link points. */
  datatype Places = Places(directory: string, init: string, backup: string, dispatcher: string, progress: string,
                           state: string, config: string, enable: string, dispatcherPath: string)
  {
    predicate Usable() {
      && dispatcherPath == directory + dispatcher
      && init != backup && init != dispatcher && init != progress && backup != dispatcher && backup != progress
      && dispatcher != progress && state != config && state != enable && config != enable
      && !IsTemporary(init) && !IsTemporary(backup) && !IsTemporary(dispatcher) && !IsTemporary(progress)
      && !IsTemporary(state) && !IsTemporary(config) && !IsTemporary(enable)
    }
  }

  /** What does not change while the program is used: the names, the digest of a
      file, the words of the state file, and the init that was there at first. */
  datatype Setting = Setting(places: Places, words: Words, digest: string -> string, original: Node,
                             hostDefault: string)
  {
    ghost predicate Usable() {
      && places.Usable() && words.Usable()
      && (forall data {:trigger digest(data)} :: IsDigest(digest(data)))
      && original != Link(places.dispatcherPath) && (original.Blob? ==> original.synced)
      && words.target.value == places.dispatcherPath
    }

    predicate Is(m: Names, name: string, node: Node) { name in m && m[name] == node }

    predicate IsProgram(m: Names, name: string) { name in m && m[name].Blob? && m[name].synced }

    /** init is a link that leads to this name in its directory. */
    predicate LeadsTo(m: Names, name: string) {
      places.init in m && m[places.init].Link? && m[places.init].target == places.directory + name
    }

    /** The machine boots: with the original init, or with the dispatcher, to which
        the link leads, which is there, flushed, and has the original to go on with. */
    predicate Boots(m: Names) {
      || Is(m, places.init, original)
      || (LeadsTo(m, places.dispatcher) && IsProgram(m, places.dispatcher) && Is(m, places.backup, original))
    }

    predicate Untouched(m: Names) { Is(m, places.init, original) }

    /** Everything is in place for the commit, which may have happened or not. */
    predicate Prepared(m: Names) {
      && (Is(m, places.init, original) || Is(m, places.init, Link(places.dispatcherPath)))
      && IsProgram(m, places.dispatcher) && Is(m, places.backup, original)
    }

    function BootsClaim(): Claim { (m: Names) => Boots(m) }
    function UntouchedClaim(): Claim { (m: Names) => Untouched(m) }
    function PreparedClaim(): Claim { (m: Names) => Prepared(m) }

    /** The machine boots after any crash now, and without the dispatcher's program
        it is certain to boot with the original init. */
    ghost predicate Sound(s: State) {
      && Always(s, BootsClaim())
      && (places.dispatcher !in s.Now() ==> Always(s, UntouchedClaim()))
    }

    /** Why the flush behind the commit must not fail: from any prepared contents,
        the machine boots behind the commit's rename and whatever the rollback then
        removes exactly if that is neither the backup nor the dispatcher's program. */
    lemma {:induction false} LateCommitBreaks(m: Names, temporary: string, removed: set<string>)
      requires Usable() && Prepared(m) && IsTemporary(temporary) && places.init !in removed
      ensures var committed := State(m, []).After(Rename(temporary, places.init, Link(places.dispatcherPath))).Now();
              Boots(committed - removed) <==> places.backup !in removed && places.dispatcher !in removed
    {
      AfterChange(State(m, []), Rename(temporary, places.init, Link(places.dispatcherPath)));
    }

    /** A backup that got its name, without the flush behind it, is not known to the
        rollback and stays: the contents are not what they were. */
    lemma {:induction false} LateBackupStays(m: Names, temporary: string)
      requires Usable() && Untouched(m) && IsTemporary(temporary) && places.backup !in m
      ensures var late := State(m, []).After(Rename(temporary, places.backup, original)).Now();
              !SameBut(m, late - {places.dispatcher, places.progress}, {})
    {
      var late := Rename(temporary, places.backup, original);
      AfterChange(State(m, []), late);
      assert places.backup in Apply(m, late) - {places.dispatcher, places.progress};
    }

    /** The same for the host configuration among the records. */
    lemma {:induction false} LateConfigStays(m: Names, temporary: string)
      requires Usable() && IsTemporary(temporary) && places.config !in m
      ensures var late := State(m, []).After(Rename(temporary, places.config, Blob(hostDefault, true))).Now();
              !SameBut(m, late - {places.state}, {})
    {
      AfterChange(State(m, []), Rename(temporary, places.config, Blob(hostDefault, true)));
    }

    // ----- What the claims allow

    lemma {:induction false} ClaimsAreBlind()
      requires Usable()
      ensures Blind(UntouchedClaim()) && Blind(PreparedClaim())
    {
    }

    lemma {:induction false} UntouchedAdmits(name: string, node: Node)
      requires name != places.init
      ensures Admits(UntouchedClaim(), name, node) && AdmitsRemoval(UntouchedClaim(), name)
    {
    }

    lemma {:induction false} PreparedAdmitsCommit()
      requires Usable()
      ensures Admits(PreparedClaim(), places.init, Link(places.dispatcherPath))
    {
    }

    lemma {:induction false} PreparedAdmitsRemoval()
      requires Usable()
      ensures AdmitsRemoval(PreparedClaim(), places.progress)
    {
    }

    /** With the dispatcher's link in place, booting whatever a crash leaves comes down
        to what is there now, if what is there has been certain. */
    lemma {:induction false} BootsExactlyWith(s: State)
      requires Usable() && Is(s.Now(), places.init, Link(places.dispatcherPath))
      requires places.backup in s.Now() && places.dispatcher in s.Now() ==> Always(s, PreparedClaim())
      ensures Always(s, BootsClaim()) <==> places.backup in s.Now() && places.dispatcher in s.Now()
    {
      if places.backup in s.Now() && places.dispatcher in s.Now() {
        PreparedIsSound(s);
      }
      if Always(s, BootsClaim()) {
        AlwaysNow(s, BootsClaim());
        assert Boots(s.Now());
      }
    }

    lemma {:induction false} UntouchedHeldBoots(h0: seq<State>, h: seq<State>)
      requires Held(h0, h, UntouchedClaim())
      ensures Held(h0, h, BootsClaim())
    {
      HeldWeaker(h0, h, UntouchedClaim(), BootsClaim());
    }

    lemma {:induction false} PreparedHeldBoots(h0: seq<State>, h: seq<State>)
      requires Usable() && Held(h0, h, PreparedClaim())
      ensures Held(h0, h, BootsClaim())
    {
      HeldWeaker(h0, h, PreparedClaim(), BootsClaim());
    }

    lemma {:induction false} PreparedIsSound(s: State)
      requires Usable() && Always(s, PreparedClaim())
      ensures Sound(s)
    {
      AlwaysNow(s, PreparedClaim());
      forall image | image in s.Images() ensures BootsClaim()(image) {
        assert PreparedClaim()(image);
      }
    }

    lemma {:induction false} UntouchedIsSound(s: State)
      requires Always(s, UntouchedClaim())
      ensures Sound(s)
    {
      forall image | image in s.Images() ensures BootsClaim()(image) {
        assert UntouchedClaim()(image);
      }
    }
  }

  /** A removal whose result is ignored: the name may still be there. */
  method Discard(d: Directory, name: string, wanted: bool, ghost claim: Claim)
    requires Always(d.state, claim) && AdmitsRemoval(claim, name)
    modifies d
    ensures Always(d.state, claim) && Held(old(d.history), d.history, claim)
    ensures d.state.Now() == old(d.state).Now() || (wanted && d.state.Now() == old(d.state).Now() - {name})
    ensures old(d.Neat()) ==> d.Neat()
    ensures !wanted || name in d.state.Now() ==> d.state == old(d.state)
    ensures d.Lasting() && wanted ==> d.state.Now() == old(d.state).Now() - {name}
  {
    if wanted {
      var ok, removed := d.RemoveSynced(name, claim);
    }
  }

  /** Whose rename was made while the flush behind it failed. */
  datatype Late = OnTime | AtBackup | AtConfig | AtCommit

  class Root {
    const setting: Setting
    const sbin: Directory
    const etc: Directory

    constructor (setting: Setting, sbin: Directory, etc: Directory)
      ensures this.setting == setting && this.sbin == sbin && this.etc == etc
    {
      this.setting, this.sbin, this.etc := setting, sbin, etc;
    }

    ghost predicate Valid()
      reads sbin, etc
    {
      setting.Usable() && sbin != etc && setting.Sound(sbin.state)
    }

    /** The removals of install's rollback, each of which may fail unnoticed. What was
        certain before, as far as it does not depend on the program, stays certain if
        backup and dispatcher stay. */
    method Rollback(backupCreated: bool, configCreated: bool, ghost claim: Claim, ghost kept: Claim)
      requires setting.Usable() && sbin != etc && Always(sbin.state, claim)
      requires Always(sbin.state, kept) && AdmitsRemoval(kept, setting.places.progress)
      requires AdmitsRemoval(claim, setting.places.backup) && AdmitsRemoval(claim, setting.places.progress)
      requires AdmitsRemoval(claim, setting.places.dispatcher)
      modifies sbin, etc
      ensures Always(sbin.state, claim) && Held(old(sbin.history), sbin.history, claim)
      ensures Reduced(old(sbin.state).Now(), sbin.state.Now(), Added(backupCreated))
      ensures Reduced(old(etc.state).Now(), etc.state.Now(), Recorded(configCreated))
      ensures sbin.Lasting() && etc.Lasting() ==>
                Absent(sbin.state.Now(), Added(backupCreated)) && Absent(etc.state.Now(), Recorded(configCreated))
      ensures setting.places.backup in sbin.state.Now() && setting.places.dispatcher in sbin.state.Now() ==>
                Always(sbin.state, kept)
      ensures (old(sbin.Neat()) ==> sbin.Neat()) && (old(etc.Neat()) ==> etc.Neat())
    {
      var p := setting.places;
      AnythingGoes(etc.state);
      Discard(sbin, p.backup, backupCreated, claim);
      Discard(etc, p.state, true, Anything());
      DiscardProgress(claim, if p.backup in sbin.state.Now() then kept else claim);
      Discard(sbin, p.dispatcher, true, claim);
      Discard(etc, p.config, configCreated, Anything());
    }

    /** The removal of the program, which keeps what does not depend on it. */
    method DiscardProgress(ghost claim: Claim, ghost kept: Claim)
      requires Always(sbin.state, claim) && AdmitsRemoval(claim, setting.places.progress)
      requires Always(sbin.state, kept) && AdmitsRemoval(kept, setting.places.progress)
      modifies sbin
      ensures Always(sbin.state, claim) && Held(old(sbin.history), sbin.history, claim) && Always(sbin.state, kept)
      ensures sbin.state.Now() == old(sbin.state).Now()
              || sbin.state.Now() == old(sbin.state).Now() - {setting.places.progress}
      ensures old(sbin.Neat()) ==> sbin.Neat()
      ensures sbin.Lasting() ==> sbin.state.Now() == old(sbin.state).Now() - {setting.places.progress}
    {
      BothBlind(sbin.state, claim, kept);
      Discard(sbin, setting.places.progress, true, Both(claim, kept));
      BothBlind(sbin.state, claim, kept);
      HeldWeaker(old(sbin.history), sbin.history, Both(claim, kept), claim);
    }

    // ----- The steps of install

    /** The copies of the two programs. */
    method CopyPrograms(initData: string, progressData: string) returns (ok: bool)
      requires setting.Usable() && Always(sbin.state, setting.UntouchedClaim())
      modifies sbin
      ensures Always(sbin.state, setting.UntouchedClaim())
      ensures Held(old(sbin.history), sbin.history, setting.UntouchedClaim())
      ensures SameBut(old(sbin.state).Now(), sbin.state.Now(), {setting.places.dispatcher, setting.places.progress})
      ensures ok ==>
                sbin.state.pending == []
                && sbin.state.Now() == WithPrograms(old(sbin.state).Now(), initData, progressData)
      ensures sbin.Reliable() && NoTemporaries(old(sbin.state).Now()) ==> ok
      ensures old(sbin.Neat()) ==> sbin.Neat()
    {
      var p := setting.places;
      setting.ClaimsAreBlind();
      setting.UntouchedAdmits(p.dispatcher, Blob(initData, true));
      setting.UntouchedAdmits(p.progress, Blob(progressData, true));
      var renamed;
      ok, renamed := sbin.AtomicWrite(p.dispatcher, initData, setting.UntouchedClaim());
      if ok {
        ok, renamed := sbin.AtomicWrite(p.progress, progressData, setting.UntouchedClaim());
      }
    }

    /** backup_original: a link is copied, a file gets a second name. */
    method BackupOriginal() returns (kind: Option<BackupKind>, late: bool)
      requires setting.Usable() && Always(sbin.state, setting.UntouchedClaim())
      modifies sbin
      ensures Always(sbin.state, setting.UntouchedClaim())
      ensures Held(old(sbin.history), sbin.history, setting.UntouchedClaim())
      ensures SameBut(old(sbin.state).Now(), sbin.state.Now(),
                      if kind.Some? || late then {setting.places.backup} else {})
      ensures kind.Some? ==> sbin.state.pending == [] && setting.places.backup !in old(sbin.state).Now()
                             && sbin.state.Now() == old(sbin.state).Now()[setting.places.backup := setting.original]
                             && kind == KindOfNode(setting.original)
      ensures late ==>
                kind.None? && setting.places.backup !in old(sbin.state).Now()
                && setting.places.backup in sbin.state.Now()
      ensures sbin.Lasting() ==> !late
      ensures sbin.Reliable() && NoTemporaries(old(sbin.state).Now()) && setting.places.backup !in old(sbin.state).Now()
              ==> kind == KindOfNode(setting.original)
      ensures old(sbin.Neat()) ==> sbin.Neat()
    {
      var p := setting.places;
      late := false;
      setting.ClaimsAreBlind();
      AlwaysNow(sbin.state, setting.UntouchedClaim());
      assert setting.Untouched(sbin.state.Now());
      var status := sbin.state.Now()[p.init];
      if p.backup in sbin.state.Now() || status.Other? {
        return None, false;
      }
      setting.UntouchedAdmits(p.backup, status);
      var ok, renamed := sbin.AtomicLink(p.backup, status, setting.UntouchedClaim(), setting.UntouchedClaim());
      late := !ok && renamed;
      return if ok then KindOfNode(status) else None, late;
    }

    /** The digests of the copies, and the state file. */
    method WriteState(kind: BackupKind) returns (ok: bool)
      requires setting.Usable() && sbin != etc
      requires setting.IsProgram(sbin.state.Now(), setting.places.dispatcher)
      requires setting.IsProgram(sbin.state.Now(), setting.places.progress)
      modifies etc
      ensures SameBut(old(etc.state).Now(), etc.state.Now(), {setting.places.state})
      ensures ok ==>
        var text := StateText(setting.words, InstallState(kind,
                                setting.digest(sbin.state.Now()[setting.places.dispatcher].data),
                                setting.digest(sbin.state.Now()[setting.places.progress].data)));
        etc.state.Now() == old(etc.state).Now()[setting.places.state := Blob(text, true)] && |text| < 512
      ensures sbin.Reliable() && etc.Reliable() && NoTemporaries(old(etc.state).Now()) ==> ok
      ensures old(etc.Neat()) ==> etc.Neat()
    {
      var p := setting.places;
      var now := sbin.state.Now();
      if !sbin.Reliable() {
        ok := *;
        if !ok {
          return;
        }
      }
      var state := InstallState(kind, setting.digest(now[p.dispatcher].data), setting.digest(now[p.progress].data));
      var text := StateText(setting.words, state);
      StateFits(setting.words, state);
      if |text| >= 512 {
        return false;
      }
      AnythingGoes(etc.state);
      var renamed;
      ok, renamed := etc.AtomicWrite(p.state, text, Anything());
    }

    /** bp_host_config_ensure: leaves a configuration alone that is there already. */
    method EnsureConfig() returns (ok: bool, created: bool, late: bool)
      requires setting.Usable()
      modifies etc
      ensures SameBut(old(etc.state).Now(), etc.state.Now(), if created || late then {setting.places.config} else {})
      ensures created || late ==>
                setting.places.config !in old(etc.state).Now() && setting.places.config in etc.state.Now()
      ensures created ==> ok
      ensures ok ==> !late && etc.state.Now() == WithConfig(old(etc.state).Now())
      ensures etc.Lasting() ==> !late
      ensures etc.Reliable() && NoTemporaries(old(etc.state).Now()) ==> ok
      ensures old(etc.Neat()) ==> etc.Neat()
    {
      var p := setting.places;
      created, late := false, false;
      if !etc.Reliable() {
        ok := *;
        if !ok {
          return;
        }
      }
      if p.config in etc.state.Now() {
        return true, false, false;
      }
      AnythingGoes(etc.state);
      var renamed;
      ok, renamed := etc.AtomicWrite(p.config, setting.hostDefault, Anything());
      created, late := ok, !ok && renamed;
    }

    /** The commit: the link to the dispatcher takes the place of init. */
    method Commit() returns (ok: bool, renamed: bool)
      requires setting.Usable() && Always(sbin.state, setting.UntouchedClaim()) && sbin.state.pending == []
      requires setting.Prepared(sbin.state.Now())
      modifies sbin
      ensures Held(old(sbin.history), sbin.history, setting.BootsClaim())
      ensures SameBut(old(sbin.state).Now(), sbin.state.Now(), if renamed then {setting.places.init} else {})
      ensures !renamed ==> !ok && Always(sbin.state, setting.UntouchedClaim())
      ensures renamed ==>
                sbin.state.Now() == old(sbin.state).Now()[setting.places.init := Link(setting.places.dispatcherPath)]
      ensures Always(sbin.state, setting.PreparedClaim()) && (ok ==> renamed && sbin.state.pending == [])
      ensures sbin.Lasting() && renamed ==> ok
      ensures sbin.Reliable() && NoTemporaries(old(sbin.state).Now()) ==> ok
      ensures old(sbin.Neat()) ==> sbin.Neat()
    {
      var p := setting.places;
      setting.ClaimsAreBlind();
      setting.PreparedAdmitsCommit();
      SettledAlways(sbin.state, setting.PreparedClaim());
      ok, renamed := sbin.AtomicLink(p.init, Link(p.dispatcherPath), setting.UntouchedClaim(), setting.PreparedClaim());
      setting.PreparedHeldBoots(old(sbin.history), sbin.history);
    }

    /** The program is installed as its state file says. */
    ghost predicate Installed()
      reads sbin, etc
    {
      InPlace() && setting.Is(sbin.state.Now(), setting.places.init, Link(setting.places.dispatcherPath))
    }

    /** The copies and the backup, all in the directory of init. */
    method PrepareBoot(initData: string, progressData: string) returns (kind: Option<BackupKind>, late: bool)
      requires setting.Usable() && Always(sbin.state, setting.UntouchedClaim())
      modifies sbin
      ensures Always(sbin.state, setting.UntouchedClaim())
      ensures Held(old(sbin.history), sbin.history, setting.UntouchedClaim())
      ensures SameBut(old(sbin.state).Now(), sbin.state.Now(),
                      {setting.places.dispatcher, setting.places.progress}
                      + if kind.Some? || late then {setting.places.backup} else {})
      ensures kind.Some? ==> Copied() && sbin.state.pending == [] && setting.Untouched(sbin.state.Now())
                             && kind == KindOfNode(setting.original) && setting.places.backup !in old(sbin.state).Now()
                             && sbin.state.Now() == WithPrograms(old(sbin.state).Now(), initData, progressData)
                                                      [setting.places.backup := setting.original]
      ensures late ==>
                kind.None? && setting.places.backup !in old(sbin.state).Now()
                && setting.places.backup in sbin.state.Now()
      ensures sbin.Lasting() ==> !late
      ensures sbin.Reliable() && NoTemporaries(old(sbin.state).Now()) && setting.places.backup !in old(sbin.state).Now()
              ==> kind == KindOfNode(setting.original)
      ensures old(sbin.Neat()) ==> sbin.Neat()
    {
      late := false;
      var ok := CopyPrograms(initData, progressData);
      if !ok {
        return None, false;
      }
      ghost var copied := sbin.state;
      kind, late := BackupOriginal();
      SameButTwice(old(sbin.state).Now(), copied.Now(), sbin.state.Now(),
                   {setting.places.dispatcher, setting.places.progress},
                   if kind.Some? || late then {setting.places.backup} else {});
      AlwaysNow(sbin.state, setting.UntouchedClaim());
    }

    /** The state file and the host configuration. */
    method PrepareRecords(kind: BackupKind) returns (ok: bool, configCreated: bool, late: bool)
      requires setting.Usable() && sbin != etc && Copied() && Some(kind) == KindOfNode(setting.original)
      modifies etc
      ensures configCreated || late ==>
                setting.places.config !in old(etc.state).Now() && setting.places.config in etc.state.Now()
      ensures configCreated ==> ok
      ensures SameBut(old(etc.state).Now(), etc.state.Now(),
                      {setting.places.state} + if configCreated || late then {setting.places.config} else {})
      ensures ok ==> !late && InPlace()
                     && etc.state.Now()
                        == WithConfig(old(etc.state).Now()[setting.places.state := Blob(Record(), true)])
      ensures etc.Lasting() ==> !late
      ensures sbin.Reliable() && etc.Reliable() && NoTemporaries(old(etc.state).Now()) ==> ok
      ensures old(etc.Neat()) ==> etc.Neat()
    {
      configCreated, late := false, false;
      ok := WriteState(kind);
      if ok {
        ghost var written := etc.state;
        ok, configCreated, late := EnsureConfig();
        SameButTwice(old(etc.state).Now(), written.Now(), etc.state.Now(), {setting.places.state},
                     if configCreated || late then {setting.places.config} else {});
      }
    }

    /** Both programs and the backup are there. */
    ghost predicate Copied()
      reads sbin
    {
      var p, now := setting.places, sbin.state.Now();
      setting.Is(now, p.backup, setting.original) && setting.IsProgram(now, p.dispatcher)
      && setting.IsProgram(now, p.progress)
    }

    /** The state file's text for the programs that are there. */
    ghost function Record(): string
      requires Copied() && KindOfNode(setting.original).Some?
      reads sbin
    {
      var p, now := setting.places, sbin.state.Now();
      StateText(setting.words, InstallState(KindOfNode(setting.original).value,
                                            setting.digest(now[p.dispatcher].data),
                                            setting.digest(now[p.progress].data)))
    }

    /** Everything but the commit is as an installation leaves it. */
    ghost predicate InPlace()
      reads sbin, etc
    {
      var p, now := setting.places, sbin.state.Now();
      && Copied() && KindOfNode(setting.original).Some?
      && setting.Is(etc.state.Now(), p.state, Blob(Record(), true)) && |Record()| < 512
    }

    // ----- install

    /** The contents differ from a and b in what was made since then, and in the name
        whose flush came too late. */
    ghost predicate Underway(a: Names, b: Names, backupCreated: bool, configCreated: bool, late: Late)
      reads sbin, etc
    {
      && Absent(a, Added(backupCreated)) && Absent(b, Recorded(configCreated)) && setting.Untouched(a)
      && SameBut(a, sbin.state.Now(), Added(backupCreated) + LateAdded(late))
      && SameBut(b, etc.state.Now(), Recorded(configCreated) + LateRecorded(late))
      && (late == AtBackup ==> !backupCreated) && (late == AtConfig ==> !configCreated) && Marked(a, b, late)
    }

    /** What a flush that came too late leaves to be seen. */
    ghost predicate Marked(a: Names, b: Names, late: Late)
      reads sbin, etc
    {
      match late
      case OnTime => true
      case AtBackup => setting.places.backup in sbin.state.Now() && setting.places.backup !in a
      case AtConfig => setting.places.config in etc.state.Now() && setting.places.config !in b
      case AtCommit => setting.Is(sbin.state.Now(), setting.places.init, Link(setting.places.dispatcherPath))
    }

    /** A name that the rollback removes is new since a and b, and still there. */
    ghost predicate Unremoved(a: Names, b: Names, late: Late)
      reads sbin, etc
    {
      Appeared(a, sbin.state.Now(), Added(late != AtBackup)) || Appeared(b, etc.state.Now(), Recorded(late != AtConfig))
    }

    /** But for temporary files, the contents are a and b again. */
    ghost predicate AsBefore(a: Names, b: Names)
      reads sbin, etc
    {
      SameBut(a, sbin.state.Now(), {}) && SameBut(b, etc.state.Now(), {})
    }

    /** Rolls back what was made since a and b were the contents of the directories. */
    method Abort(backupCreated: bool, configCreated: bool, ghost claim: Claim, ghost kept: Claim,
        ghost a: Names, ghost b: Names, ghost late: Late)
      requires setting.Usable() && sbin != etc && Always(sbin.state, claim)
      requires Always(sbin.state, kept) && AdmitsRemoval(kept, setting.places.progress)
      requires AdmitsRemoval(claim, setting.places.backup) && AdmitsRemoval(claim, setting.places.progress)
      requires AdmitsRemoval(claim, setting.places.dispatcher)
      requires Underway(a, b, backupCreated, configCreated, late)
      modifies sbin, etc
      ensures Always(sbin.state, claim) && Held(old(sbin.history), sbin.history, claim)
      ensures Marked(a, b, late) && Reduced(old(sbin.state).Now(), sbin.state.Now(), Added(backupCreated))
      ensures AsBefore(a, b) <==> late == OnTime && !Unremoved(a, b, late)
      ensures setting.places.backup in sbin.state.Now() && setting.places.dispatcher in sbin.state.Now() ==>
                Always(sbin.state, kept)
      ensures sbin.Lasting() && etc.Lasting() ==> !Unremoved(a, b, late)
      ensures (old(sbin.Neat()) ==> sbin.Neat()) && (old(etc.Neat()) ==> etc.Neat())
    {
      ghost var m, r := sbin.state.Now(), etc.state.Now();
      Rollback(backupCreated, configCreated, claim, kept);
      Reverted(a, m, sbin.state.Now(), Added(backupCreated), LateAdded(late), Added(late != AtBackup));
      Reverted(b, r, etc.state.Now(), Recorded(configCreated), LateRecorded(late), Recorded(late != AtConfig));
    }

    /** install, when none of its names is taken and init is the original. */
    method InstallFresh(initData: string, progressData: string) returns (ok: bool, late: Late)
      requires Valid() && Always(sbin.state, setting.UntouchedClaim())
      requires Absent(sbin.state.Now(), Added(false)) && Absent(etc.state.Now(), Recorded(false))
      modifies sbin, etc
      ensures late != AtCommit ==> Valid() && Held(old(sbin.history), sbin.history, setting.BootsClaim())
      ensures ok ==> late == OnTime && Installed() && sbin.state.pending == []
      ensures ok ==> sbin.state.Now() == WithInstallation(old(sbin.state).Now(), initData, progressData)
                     && etc.state.Now()
                        == WithConfig(old(etc.state).Now()[setting.places.state := Blob(Record(), true)])
      ensures ok ==> KindOfNode(setting.original).Some? && setting.places.backup !in old(sbin.state).Now()
      ensures old(Calm()) && KindOfNode(setting.original).Some? && setting.places.backup !in old(sbin.state).Now() ==>
                ok
      ensures !ok ==> Undone(old(sbin.state).Now(), old(etc.state).Now(), late)
      ensures (old(sbin.Neat()) ==> sbin.Neat()) && (old(etc.Neat()) ==> etc.Neat())
    {
      ghost var a, b := sbin.state.Now(), etc.state.Now();
      AlwaysNow(sbin.state, setting.UntouchedClaim());
      late := OnTime;
      var kind, lateBackup := PrepareBoot(initData, progressData);
      setting.UntouchedHeldBoots(old(sbin.history), sbin.history);
      ghost var h := sbin.history;
      if kind.Some? {
        ok, late := RecordAndCommit(kind.value, a, b);
      } else {
        ok, late := false, if lateBackup then AtBackup else OnTime;
        RemovalsAdmitted();
        Abort(false, false, setting.UntouchedClaim(), setting.UntouchedClaim(), a, b, late);
        setting.UntouchedHeldBoots(h, sbin.history);
        setting.UntouchedIsSound(sbin.state);
      }
      if late != AtCommit {
        HeldTwice(old(sbin.history), h, sbin.history, setting.BootsClaim());
      }
    }

    /** What a failure leaves. The contents are as before exactly if no flush behind a
        rename failed and no removal left its name. Behind a late commit the machine
        boots, whatever a crash leaves, exactly if the rollback has failed to remove
        what booting needs. */
    ghost predicate Undone(a: Names, b: Names, late: Late)
      reads sbin, etc
    {
      && Marked(a, b, late)
      && (AsBefore(a, b) <==> late == OnTime && !Unremoved(a, b, late))
      && (late == AtCommit ==> (Always(sbin.state, setting.BootsClaim()) <==>
            setting.places.backup in sbin.state.Now() && setting.places.dispatcher in sbin.state.Now()))
      && (sbin.Lasting() && etc.Lasting() ==> late == OnTime && !Unremoved(a, b, late))
    }

    /** From the backup on. */
    method RecordAndCommit(kind: BackupKind, ghost a: Names, ghost b: Names) returns (ok: bool, late: Late)
      requires setting.Usable() && sbin != etc && Always(sbin.state, setting.UntouchedClaim())
      requires Copied() && sbin.state.pending == [] && setting.Untouched(sbin.state.Now())
      requires Some(kind) == KindOfNode(setting.original)
      requires setting.Untouched(a) && SameBut(a, sbin.state.Now(), Added(true)) && Absent(a, Added(true))
      requires b == etc.state.Now() && Absent(b, Recorded(false))
      modifies sbin, etc
      ensures late != AtCommit ==> Valid() && Held(old(sbin.history), sbin.history, setting.BootsClaim())
      ensures ok ==> late == OnTime && Installed() && sbin.state.pending == []
      ensures ok ==>
                sbin.state.Now() == old(sbin.state).Now()[setting.places.init := Link(setting.places.dispatcherPath)]
                     && etc.state.Now()
                        == WithConfig(old(etc.state).Now()[setting.places.state := Blob(Record(), true)])
      ensures old(Calm()) ==> ok
      ensures !ok ==> Undone(a, b, late)
      ensures (old(sbin.Neat()) ==> sbin.Neat()) && (old(etc.Neat()) ==> etc.Neat())
    {
      late := OnTime;
      var created, lateConfig;
      ok, created, lateConfig := PrepareRecords(kind);
      if ok {
        ok, late := CommitOrAbort(created, a, b);
      } else {
        late := if lateConfig then AtConfig else OnTime;
        RemovalsAdmitted();
        Abort(true, created, setting.UntouchedClaim(), setting.UntouchedClaim(), a, b, late);
        setting.UntouchedHeldBoots(old(sbin.history), sbin.history);
        setting.UntouchedIsSound(sbin.state);
      }
    }

    lemma {:induction false} RemovalsAdmitted()
      requires setting.Usable()
      ensures AdmitsRemoval(setting.UntouchedClaim(), setting.places.backup)
      ensures AdmitsRemoval(setting.UntouchedClaim(), setting.places.progress)
      ensures AdmitsRemoval(setting.UntouchedClaim(), setting.places.dispatcher)
    {
      setting.UntouchedAdmits(setting.places.backup, Other);
      setting.UntouchedAdmits(setting.places.progress, Other);
      setting.UntouchedAdmits(setting.places.dispatcher, Other);
    }

    /** The last step. A commit whose rename was made but whose flush failed is
        rolled back like any other failure. */
    method CommitOrAbort(configCreated: bool, ghost a: Names, ghost b: Names) returns (ok: bool, late: Late)
      requires setting.Usable() && sbin != etc && Always(sbin.state, setting.UntouchedClaim()) && InPlace()
      requires sbin.state.pending == [] && setting.Untouched(sbin.state.Now())
      requires Underway(a, b, true, configCreated, OnTime)
      modifies sbin, etc
      ensures late == OnTime || late == AtCommit
      ensures late != AtCommit ==> Valid() && Held(old(sbin.history), sbin.history, setting.BootsClaim())
      ensures ok ==> late == OnTime && Installed() && sbin.state.pending == []
      ensures ok ==>
                sbin.state.Now() == old(sbin.state).Now()[setting.places.init := Link(setting.places.dispatcherPath)]
                     && etc.state == old(etc.state)
      ensures sbin.Reliable() && NoTemporaries(old(sbin.state).Now()) ==> ok
      ensures !ok ==> Undone(a, b, late)
      ensures (old(sbin.Neat()) ==> sbin.Neat()) && (old(etc.Neat()) ==> etc.Neat())
    {
      var renamed;
      ok, renamed := Commit();
      late := if !ok && renamed then AtCommit else OnTime;
      if ok {
        setting.PreparedIsSound(sbin.state);
        return;
      }
      ghost var h := sbin.history;
      ghost var claim := if late == AtCommit then Anything() else setting.UntouchedClaim();
      AnythingGoes(sbin.state);
      RemovalsAdmitted();
      setting.PreparedAdmitsRemoval();
      Abort(true, configCreated, claim, if late == AtCommit then setting.PreparedClaim() else claim, a, b, late);
      if late == AtCommit {
        setting.BootsExactlyWith(sbin.state);
      }
      if late != AtCommit {
        setting.UntouchedHeldBoots(h, sbin.history);
        HeldTwice(old(sbin.history), h, sbin.history, setting.BootsClaim());
        setting.UntouchedIsSound(sbin.state);
      }
    }

    /** bp_install. Unless the flush behind the commit fails, every state on the way
        boots, whatever a crash keeps of it. If no call fails it succeeds exactly if
        its conditions hold; Undone says what a failure leaves. */
    method Install(initSource: Option<string>, progressSource: Option<string>) returns (ok: bool, late: Late)
      requires Valid()
      modifies sbin, etc
      ensures late != AtCommit ==> Valid() && Held(old(sbin.history), sbin.history, setting.BootsClaim())
      ensures ok ==> late == OnTime && Installed() && sbin.state.pending == []
      ensures ok ==> initSource.Some? && progressSource.Some?
                     && sbin.state.Now()
                        == WithInstallation(old(sbin.state).Now(), initSource.value, progressSource.value)
                     && etc.state.Now()
                        == WithConfig(old(etc.state).Now()[setting.places.state := Blob(Record(), true)])
      ensures ok ==> Installable(old(sbin.state).Now(), old(etc.state).Now(), initSource, progressSource)
      ensures old(Calm()) ==>
                (ok <==> Installable(old(sbin.state).Now(), old(etc.state).Now(), initSource, progressSource))
      ensures !ok ==> Undone(old(sbin.state).Now(), old(etc.state).Now(), late)
      ensures !ok && old(sbin.Neat()) && old(etc.Neat()) ==>
                sbin.state.Now() == old(sbin.state).Now() && etc.state.Now() == old(etc.state).Now()
    {
      var p, now := setting.places, sbin.state.Now();
      if setting.Is(now, p.init, Link(p.dispatcherPath)) {
        return false, OnTime;
      }
      if initSource.None? || initSource.value == "" || progressSource.None? || progressSource.value == "" {
        return false, OnTime;
      }
      if p.dispatcher in now || p.progress in now || p.state in etc.state.Now() {
        return false, OnTime;
      }
      AlwaysNow(sbin.state, setting.UntouchedClaim());
      assert setting.Untouched(now);
      ok, late := InstallFresh(initSource.value, progressSource.value);
      if !ok && old(sbin.Neat()) && old(etc.Neat()) {
        SameWithoutTemporaries(now, sbin.state.Now());
        SameWithoutTemporaries(old(etc.state).Now(), etc.state.Now());
      }
    }

    // ----- uninstall

    /** The checks: a readable state, the dispatcher in place and unchanged, and a
        backup of the recorded kind. */
    method ReadyToUninstall() returns (state: Option<InstallState>)
      requires Valid()
      ensures state.Some? <==> Removable(sbin.state.Now(), etc.state.Now())
      ensures state == RecordedState(etc.state.Now()) || state.None?
    {
      var p, now := setting.places, sbin.state.Now();
      if p.state !in etc.state.Now() || !etc.state.Now()[p.state].Blob? || |etc.state.Now()[p.state].data| > 65536 {
        return None;
      }
      state := ReadState(setting.words, etc.state.Now()[p.state].data);
      if state.None? || !setting.Is(now, p.init, Link(p.dispatcherPath)) {
        return None;
      }
      if p.dispatcher !in now || !now[p.dispatcher].Blob?
         || setting.digest(now[p.dispatcher].data) != state.value.initDigest {
        return None;
      }
      if p.backup !in now || KindOfNode(now[p.backup]) != Some(state.value.kind) {
        return None;
      }
    }

    /** read_state */
    function RecordedState(records: Names): Option<InstallState> {
      var name := setting.places.state;
      if name in records && records[name].Blob? && |records[name].data| <= 65536
      then StateOf(setting.words, records[name].data) else None
    }

    /** What uninstall asks for. */
    predicate Removable(m: Names, records: Names) {
      var p, state := setting.places, RecordedState(records);
      && state.Some? && setting.Is(m, p.init, Link(p.dispatcherPath))
      && p.dispatcher in m && m[p.dispatcher].Blob? && setting.digest(m[p.dispatcher].data) == state.value.initDigest
      && p.backup in m && KindOfNode(m[p.backup]) == Some(state.value.kind)
    }

    /** The program is still the one that was installed. */
    predicate SameProgram(m: Names, state: InstallState) {
      var p := setting.places;
      p.progress in m && m[p.progress].Blob? && setting.digest(m[p.progress].data) == state.progressDigest
    }

    /** The contents that uninstall leaves when no removal fails. */
    function WithoutInstallation(m: Names, state: InstallState): Names {
      var p := setting.places;
      var restored := (m - {p.backup})[p.init := setting.original] - {p.dispatcher};
      if SameProgram(m, state) then restored - {p.progress} else restored
    }

    /** A dispatcher that has changed since the installation stops uninstall, */
    lemma {:induction false} ChangedDispatcherIsRefused(m: Names, records: Names)
      requires RecordedState(records).Some? && setting.places.dispatcher in m && m[setting.places.dispatcher].Blob?
      requires setting.digest(m[setting.places.dispatcher].data) != RecordedState(records).value.initDigest
      ensures !Removable(m, records)
    {
    }

    /** so does a backup that is gone or of another kind, or an init that leads elsewhere, */
    lemma {:induction false} ChangedBackupIsRefused(m: Names, records: Names)
      requires RecordedState(records).Some?
      requires || setting.places.backup !in m
               || (m[setting.places.backup].Link? != RecordedState(records).value.kind.SymlinkBackup?)
               || m[setting.places.backup].Other?
               || !setting.Is(m, setting.places.init, Link(setting.places.dispatcherPath))
      ensures !Removable(m, records)
    {
    }

    /** and a program that has changed is left where it is. */
    lemma {:induction false} ChangedProgramIsKept(m: Names, state: InstallState)
      requires setting.Usable() && setting.places.progress in m && m[setting.places.progress].Blob?
      requires setting.digest(m[setting.places.progress].data) != state.progressDigest
      ensures setting.Is(WithoutInstallation(m, state), setting.places.progress, m[setting.places.progress])
    {
    }

    lemma {:induction false} InstalledIsRemovable()
      requires Valid() && Installed()
      ensures Removable(sbin.state.Now(), etc.state.Now())
      ensures SameProgram(sbin.state.Now(), RecordedState(etc.state.Now()).value)
    {
      var p, now := setting.places, sbin.state.Now();
      StateRoundTrip(setting.words, InstallState(KindOfNode(setting.original).value,
                     setting.digest(now[p.dispatcher].data), setting.digest(now[p.progress].data)));
    }

    /** The removals behind the restored init. */
    method Clean(state: InstallState)
      requires setting.Usable() && sbin != etc && Always(sbin.state, setting.UntouchedClaim())
      modifies sbin, etc
      ensures Always(sbin.state, setting.UntouchedClaim())
      ensures Held(old(sbin.history), sbin.history, setting.UntouchedClaim())
      ensures SameBut(old(sbin.state).Now(), sbin.state.Now(), {setting.places.dispatcher, setting.places.progress})
      ensures SameBut(old(etc.state).Now(), etc.state.Now(), {setting.places.enable, setting.places.state})
      ensures sbin.Lasting() ==>
        var left := old(sbin.state).Now() - {setting.places.dispatcher};
        sbin.state.Now() == if SameProgram(left, state) then left - {setting.places.progress} else left
      ensures etc.Lasting() ==>
                etc.state.Now() == old(etc.state).Now() - {setting.places.enable} - {setting.places.state}
    {
      var p := setting.places;
      RemovalsAdmitted();
      AnythingGoes(etc.state);
      Discard(etc, p.enable, true, Anything());
      Discard(sbin, p.dispatcher, true, setting.UntouchedClaim());
      if SameProgram(sbin.state.Now(), state) {
        Discard(sbin, p.progress, true, setting.UntouchedClaim());
      }
      Discard(etc, p.state, true, Anything());
    }

    /** The rename of the backup, and the flush that makes it last. */
    method Restore() returns (ok: bool)
      requires Valid()
      requires setting.Is(sbin.state.Now(), setting.places.init, Link(setting.places.dispatcherPath))
      requires setting.Is(sbin.state.Now(), setting.places.backup, setting.original)
      modifies sbin
      ensures Valid() && Held(old(sbin.history), sbin.history, setting.BootsClaim())
      ensures sbin.state.Now() == old(sbin.state).Now()
              || sbin.state.Now()
                 == (old(sbin.state).Now() - {setting.places.backup})[setting.places.init := setting.original]
      ensures ok ==> Always(sbin.state, setting.UntouchedClaim()) && setting.places.backup !in sbin.state.Now()
      ensures sbin.Reliable() ==> ok
    {
      var p := setting.places;
      RestoringBoots();
      DispatcherIsThere();
      ok := sbin.Move(p.backup, p.init, setting.BootsClaim());
      if ok {
        ghost var h := sbin.history;
        ok := sbin.Sync(setting.BootsClaim());
        HeldTwice(old(sbin.history), h, sbin.history, setting.BootsClaim());
      }
      if ok {
        SettledAlways(sbin.state, setting.UntouchedClaim());
        setting.UntouchedIsSound(sbin.state);
      }
    }

    lemma {:induction false} DispatcherIsThere()
      requires Valid() && setting.Is(sbin.state.Now(), setting.places.init, Link(setting.places.dispatcherPath))
      ensures setting.places.dispatcher in sbin.state.Now()
      ensures setting.Is(sbin.state.Now(), setting.places.backup, setting.original)
    {
      AlwaysNow(sbin.state, setting.BootsClaim());
      assert setting.Boots(sbin.state.Now());
    }

    /** bp_uninstall. Every state on the way boots; at the end the original init is
        back for good, and what the installation added is gone. */
    method Uninstall() returns (ok: bool)
      requires Valid()
      modifies sbin, etc
      ensures Valid() && Held(old(sbin.history), sbin.history, setting.BootsClaim())
      ensures ok ==>
                Removable(old(sbin.state).Now(), old(etc.state).Now()) && Always(sbin.state, setting.UntouchedClaim())
      ensures sbin.Reliable() ==> (ok <==> Removable(old(sbin.state).Now(), old(etc.state).Now()))
      ensures ok && sbin.Lasting() ==>
        sbin.state.Now() == WithoutInstallation(old(sbin.state).Now(), RecordedState(old(etc.state).Now()).value)
      ensures ok && etc.Lasting() ==>
                etc.state.Now() == old(etc.state).Now() - {setting.places.enable} - {setting.places.state}
      ensures !ok ==> etc.state == old(etc.state)
    {
      var state := ReadyToUninstall();
      if state.None? {
        return false;
      }
      DispatcherIsThere();
      ok := Restore();
      if ok {
        ghost var h := sbin.history;
        Clean(state.value);
        setting.UntouchedHeldBoots(h, sbin.history);
        HeldTwice(old(sbin.history), h, sbin.history, setting.BootsClaim());
        setting.UntouchedIsSound(sbin.state);
      }
    }

    lemma {:induction false} RestoringBoots()
      requires setting.Usable() && setting.Is(sbin.state.Now(), setting.places.backup, setting.original)
      ensures var p := setting.places;
              forall m {:trigger setting.BootsClaim()(m)} :: setting.BootsClaim()(m) ==>
                setting.BootsClaim()(Apply(m, Rename(p.backup, p.init, sbin.state.Now()[p.backup])))
    {
    }

    // ----- Runs

    /** A change to the records that is not the state file: enable, config, rootfs. */
    method Configure(name: string, data: Option<string>)
      requires setting.Usable() && sbin != etc && !IsTemporary(name)
      modifies etc
      ensures old(Installed()) && name != setting.places.state ==> Installed()
    {
      AnythingGoes(etc.state);
      if data.Some? {
        var ok, renamed := etc.AtomicWrite(name, data.value, Anything());
      } else {
        var ok, removed := etc.RemoveSynced(name, Anything());
      }
    }

    method Perform(c: Command) returns (lateCommit: bool)
      requires Valid()
      modifies sbin, etc
      ensures !lateCommit ==> Valid() && Held(old(sbin.history), sbin.history, setting.BootsClaim())
      ensures sbin.Lasting() && etc.Lasting() ==> !lateCommit
    {
      lateCommit := false;
      match c {
        case InstallPrograms(initSource, progressSource) =>
          var ok, late := Install(initSource, progressSource);
          lateCommit := late == AtCommit;
        case UninstallPrograms =>
          var ok := Uninstall();
        case Change(name, data) =>
          if !IsTemporary(name) {
            Configure(name, data);
          }
      }
    }

    /** The machine stops at some point of the last command, and comes up with one of
        the things this can leave. */
    method Crash(from: nat, at: nat, image: Names, records: Names)
      requires Valid() && forall i :: from <= i < |sbin.history| ==> Always(sbin.history[i], setting.BootsClaim())
      modifies sbin, etc
      ensures Valid() && Held(old(sbin.history), sbin.history, setting.BootsClaim())
    {
      if image in sbin.state.Images() || (from <= at < |sbin.history| && image in sbin.history[at].Images()) {
        assert setting.BootsClaim()(image);
        sbin.Restart(image, setting.BootsClaim());
        etc.Restart(records, Anything());
        BootsIsSound(image);
      }
    }

    lemma {:induction false} BootsIsSound(image: Names)
      requires setting.Boots(image)
      ensures setting.Sound(State(image, []))
    {
    }

    /** Crash safety: however installs, uninstalls and other changes follow on each
        other, and wherever crashes cut them short, every state on the way boots,
        unless the flush behind some commit failed. */
    method Live(steps: seq<Step>) returns (lateCommit: bool)
      requires Valid()
      modifies sbin, etc
      ensures !lateCommit ==> Valid() && Held(old(sbin.history), sbin.history, setting.BootsClaim())
      ensures sbin.Lasting() && etc.Lasting() ==> !lateCommit
    {
      lateCommit := false;
      for i := 0 to |steps|
        invariant !lateCommit && Valid() && Held(old(sbin.history), sbin.history, setting.BootsClaim())
      {
        ghost var h := sbin.history;
        lateCommit := Take(steps[i]);
        if lateCommit {
          return;
        }
        HeldTwice(old(sbin.history), h, sbin.history, setting.BootsClaim());
      }
    }

    /** A command, and the crash that stops it, if one does. */
    method Take(step: Step) returns (lateCommit: bool)
      requires Valid()
      modifies sbin, etc
      ensures !lateCommit ==> Valid() && Held(old(sbin.history), sbin.history, setting.BootsClaim())
      ensures sbin.Lasting() && etc.Lasting() ==> !lateCommit
    {
      var from := |sbin.history|;
      lateCommit := Perform(step.command);
      if !lateCommit && step.crash.Some? {
        ghost var h := sbin.history;
        var crash := step.crash.value;
        Crash(from, crash.at, crash.image, crash.records);
        HeldTwice(old(sbin.history), h, sbin.history, setting.BootsClaim());
      }
    }

    /** Uninstalling takes out exactly what installing has put in. */
    lemma {:induction false} UninstallUndoesInstall(m: Names, initData: string, progressData: string,
        state: InstallState)
      requires setting.Usable() && setting.Is(m, setting.places.init, setting.original)
      requires setting.places.dispatcher !in m && setting.places.progress !in m && setting.places.backup !in m
      requires SameProgram(WithInstallation(m, initData, progressData), state)
      ensures WithoutInstallation(WithInstallation(m, initData, progressData), state) == m
    {
    }

    /** Whatever else was recorded after an installation, uninstalling brings the
        original init back, for good, if the directory gives no trouble. */
    method InstallThenUninstall(initSource: Option<string>, progressSource: Option<string>,
        changes: seq<(string, Option<string>)>)
      returns (installed: bool, restored: bool)
      requires Valid() && forall c :: c in changes ==> c.0 != setting.places.state && !IsTemporary(c.0)
      modifies sbin, etc
      ensures installed && sbin.Reliable() ==> restored
      ensures restored ==> Always(sbin.state, setting.UntouchedClaim())
      ensures restored && sbin.Lasting() ==> sbin.state.Now() == old(sbin.state).Now()
    {
      var late;
      installed, late := Install(initSource, progressSource);
      restored := false;
      if installed {
        ghost var installedState := sbin.state;
        for i := 0 to |changes|
          invariant Valid() && Installed() && sbin.state == installedState
        {
          assert changes[i] in changes;
          Configure(changes[i].0, changes[i].1);
        }
        InstalledIsRemovable();
        UninstallUndoesInstall(old(sbin.state).Now(), initSource.value, progressSource.value,
                               RecordedState(etc.state.Now()).value);
        restored := Uninstall();
      }
    }

    /** The contents with both programs. */
    function WithPrograms(m: Names, initData: string, progressData: string): Names {
      m[setting.places.dispatcher := Blob(initData, true)][setting.places.progress := Blob(progressData, true)]
    }

    function WithInstallation(m: Names, initData: string, progressData: string): Names {
      WithPrograms(m, initData, progressData)
        [setting.places.backup := setting.original][setting.places.init := Link(setting.places.dispatcherPath)]
    }

    function WithConfig(m: Names): Names {
      if setting.places.config in m then m else m[setting.places.config := Blob(setting.hostDefault, true)]
    }

    /** Nothing fails but for a reason in the contents. */
    ghost predicate Calm()
      reads sbin, etc
    {
      sbin.Reliable() && etc.Reliable() && NoTemporaries(sbin.state.Now()) && NoTemporaries(etc.state.Now())
    }

    /** What install asks for: sources that are not empty, an init that it can keep,
        and none of its own names taken. */
    predicate Installable(m: Names, records: Names, initSource: Option<string>, progressSource: Option<string>) {
      && initSource.Some? && initSource.value != "" && progressSource.Some? && progressSource.value != ""
      && KindOfNode(setting.original).Some? && setting.Is(m, setting.places.init, setting.original)
      && setting.places.dispatcher !in m && setting.places.progress !in m && setting.places.backup !in m
      && setting.places.state !in records
    }

    /** The names that an installation adds next to init. */
    function Added(backupCreated: bool): set<string> {
      {setting.places.dispatcher, setting.places.progress} + if backupCreated then {setting.places.backup} else {}
    }

    /** The name whose flush came too late, next to init or among the records. */
    function LateAdded(late: Late): set<string> {
      if late == AtBackup then {setting.places.backup} else if late == AtCommit then {setting.places.init} else {}
    }

    function LateRecorded(late: Late): set<string> { if late == AtConfig then {setting.places.config} else {} }

    /** The names that it adds to the records. */
    function Recorded(configCreated: bool): set<string> {
      {setting.places.state} + if configCreated then {setting.places.config} else {}
    }
  }

  function StandardPlaces(): Places {
    Places("/sbin/", "init", "init.burning-original", "burning-init", "burning-progress",
           "install-state", "config", "enable", "/sbin/burning-init")
  }

  /** The paths that the program is compiled with. */
  lemma {:induction false} StandardPaths()
    ensures var p := StandardPlaces();
            && p.directory + p.init == "/sbin/init" && p.directory + p.backup == "/sbin/init.burning-original"
            && p.directory + p.dispatcher == "/sbin/burning-init" == p.dispatcherPath
            && p.directory + p.progress == "/sbin/burning-progress"
  {
  }

  lemma {:induction false} StandardPlacesAreUsable()
    ensures StandardPlaces().Usable()
  {
    var p := StandardPlaces();
    StandardPaths();
    assert |p.init| == 4 && |p.backup| == 21 && |p.dispatcher| == 12 && |p.progress| == 16;
    assert |p.state| == 13 && |p.config| == 6 && |p.enable| == 6 && p.config[0] == 'c' && p.enable[0] == 'e';
  }

  datatype Command =
    | InstallPrograms(initSource: Option<string>, progressSource: Option<string>)
    | UninstallPrograms
    | Change(name: string, data: Option<string>)

  datatype Step = Step(command: Command, crash: Option<CrashPoint>)

  /** Which state of the command is the last one, and what is left of it. */
  datatype CrashPoint = CrashPoint(at: nat, image: Names, records: Names)

  predicate Absent(m: Names, names: set<string>) { forall n :: n in names ==> n !in m }

  /** One of the names is new in b. */
  predicate Appeared(a: Names, b: Names, names: set<string>) { exists n :: n in names && n in b && n !in a }

  /** b is what a was, without some of these names. */
  ghost predicate Reduced(a: Names, b: Names, names: set<string>) {
    && (forall n {:trigger n in b} :: n in b ==> n in a && b[n] == a[n])
    && (forall n {:trigger n in a} :: n in a && n !in names ==> n in b)
  }

  /** Contents m that were a but for some names, with all or part of the new ones
      removed again: they are a, but for the late names, exactly if nothing new is left. */
  lemma {:induction false} Reverted(a: Names, m: Names, n: Names, made: set<string>, late: set<string>,
      names: set<string>)
    requires SameBut(a, m, made + late) && Absent(a, made) && Reduced(m, n, made)
    requires made <= names && late !! names && forall x :: x in names ==> !IsTemporary(x)
    ensures SameBut(a, n, late) <==> !Appeared(a, n, names)
  {
    if !Appeared(a, n, names) {
      forall x | !IsTemporary(x) && x !in late ensures (x in a <==> x in n) && (x in a ==> a[x] == n[x]) {
      }
    }
  }

  function KindOfNode(n: Node): Option<BackupKind> {
    match n
    case Link(_) => Some(SymlinkBackup)
    case Blob(_, _) => Some(RegularBackup)
    case Other => None
  }

  /** What the state file says of a backup: a link or a regular file. */
  lemma {:induction false} KindIsRecorded(n: Node)
    ensures KindOfNode(n).Some? ==> KindName(KindOfNode(n).value) == if n.Link? then "symlink" else "regular"
    ensures KindOfNode(n) == None <==> n.Other?
  {
  }
}
