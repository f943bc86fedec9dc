/**
  The parts together, with the names and digests that the program really uses: a
  tree is packed, its archive installed, and after any crash extracted again.
*/
module Deployment {
  import opened CStrings
  import opened Disk
  import Archive
  import Newc
  import Config
  import StateFile
  import Installation
  import RootfsStore
  import Sha256
  import Sha256Spec
  import Sha256Constants
  import Verifier
  import Packing
  import Packer
  import PackRoundTrip
  import Packability
  import Modes
  import FileTree
  import Extraction
  import Tidy

  // ----- Digests

  function Octets(data: string): seq<Sha256Spec.octet> {
    seq(|data|, i requires 0 <= i < |data| => data[i] as int % 256)
  }

  /** bp_sha256_file */
  function FileDigest(data: string): string { Sha256.Hex(Sha256Constants.Standard().Digest(Octets(data))) }

  /** A digest can stand in the state file and in a checksum file. */
  lemma {:induction false} FileDigestIsStorable(data: string)
    ensures StateFile.IsDigest(FileDigest(data)) && RootfsStore.HexDigest(FileDigest(data))
  {
    var digest := Sha256Constants.Standard().Digest(Octets(data));
    Sha256.HexIsHexadecimal(digest);
    HexIsPlain(Sha256.Hex(digest));
  }

  lemma {:induction false} HexIsPlain(h: string)
    requires |h| == 64 && forall i :: 0 <= i < |h| ==> Sha256.IsHexDigit(h[i])
    ensures StateFile.IsDigest(h) && RootfsStore.HexDigest(h)
  {
  }

  // ----- The program's own names

  function StandardSetting(original: Node): Installation.Setting {
    Installation.Setting(Installation.StandardPlaces(), StateFile.StandardWords(), FileDigest, original,
                         Config.HostText(Config.HostDefault))
  }

  lemma {:induction false} StandardSettingIsUsable(original: Node)
    requires original != Link(Installation.StandardPlaces().dispatcherPath) && (original.Blob? ==> original.synced)
    ensures StandardSetting(original).Usable()
  {
    Installation.StandardPlacesAreUsable();
    StateFile.StandardWordsAreUsable();
    forall data ensures StateFile.IsDigest(FileDigest(data)) {
      FileDigestIsStorable(data);
    }
  }

  /** bp_rootfs_verify: a gzip file is left to the tar verifier, a newc archive is verified. */
  predicate AcceptsRootfs(tar: string -> bool, data: string) {
    if |data| >= 2 && data[0] as int == 0x1f && data[1] as int == 0x8b then tar(data)
    else Newc.Magic <= data && Verifier.Verified(Verifier.Standard(true), Newc.PrefixOf, data).Some?
  }

  /** What starts like a gzip file is only asked of the tar verifier, and everything else
      only of the newc verifier. */
  lemma {:induction false} FormatsAreTold(tar: string -> bool, rest: string)
    ensures AcceptsRootfs(tar, [0x1f as char, 0x8b as char] + rest) == tar([0x1f as char, 0x8b as char] + rest)
    ensures AcceptsRootfs(tar, "070701" + rest)
            <==> Verifier.Verified(Verifier.Standard(true), Newc.PrefixOf, "070701" + rest).Some?
  {
    var data := "070701" + rest;
    assert data[0] == '0' && data[..6] == "070701";
  }

  function StandardStore(tar: string -> bool): RootfsStore.Store {
    RootfsStore.Store("rootfs.cpio", "rootfs.cpio.sha256", "config", FileDigest,
                      (data: string) => AcceptsRootfs(tar, data), "  rootfs.cpio\n",
                      Config.HostText(Config.HostDefault))
  }

  /** The names that stand in more than one place agree. */
  lemma {:induction false} StandardNamesAgree(tar: string -> bool)
    ensures var s := StandardStore(tar);
            && s.checksum == s.archive + ".sha256" && s.suffix == "  " + s.archive + "\n"
            && s.config == Installation.StandardPlaces().config
            && s.hostDefault == StandardSetting(Other).hostDefault
  {
  }

  lemma {:induction false} StandardStoreIsUsable(tar: string -> bool)
    ensures StandardStore(tar).Usable()
  {
    var s := StandardStore(tar);
    assert |s.archive| == 11 && |s.checksum| == 18 && |s.config| == 6 && |s.suffix| == 14;
    assert s.archive[0] == 'r' && s.checksum[0] == 'r' && s.config[0] == 'c';
    forall data ensures RootfsStore.HexDigest(s.digest(data)) {
      FileDigestIsStorable(data);
    }
  }

  // ----- From a source tree to a recovery system

  lemma {:induction false} VerifiedHasMagic(policy: Verifier.Policy, data: string)
    requires Verifier.Verified(policy, Newc.PrefixOf, data).Some?
    ensures Newc.Magic <= data
  {
    assert Archive.Parse(Newc.PrefixOf, data).Some?;
    assert Newc.HeaderOf(data).Some?;
    assert data[..6] == Newc.Magic;
  }

  /** What the packer puts in place is a root file system that can be installed. */
  lemma {:induction false} PackedIsInstallable(tar: string -> bool, s: Packing.Source, paths: seq<FileTree.Path>)
    requires Packing.Valid(s) && Packer.Packable(s, paths)
    ensures StandardStore(tar).accepts(Packer.ArchiveOf(s, paths))
  {
    var data := Packer.ArchiveOf(s, paths);
    VerifiedHasMagic(Verifier.Standard(true), data);
    assert data[0] == Newc.Magic[0];
  }

  /** The archive in these contents extracts to the packed part of the source. */
  ghost predicate Recovers(store: RootfsStore.Store, env: FileTree.Env, start: FileTree.Nodes, s: Packing.Source,
      m: Names)
    requires Packing.Valid(s)
  {
    && store.Accepted(m)
    && var n := Extraction.ExtractedFrom(Verifier.Standard(true), env, start, m[store.archive].data);
       n.Some? && PackRoundTrip.Mirrors(env, s, n.value)
  }

  /** pack, and then rootfs install: whatever a crash takes afterwards, the archive
      that is there is accepted, and extracts to the tree that was packed. If no
      call fails, it succeeds exactly for the trees that can be packed. */
  method PackAndInstall(s: Packing.Source, d: Directory, tar: string -> bool, env: FileTree.Env, start: FileTree.Nodes)
    returns (ok: bool, ghost paths: seq<FileTree.Path>)
    requires Packing.Valid(s) && Tidy.Fresh(env, start)
    modifies d
    ensures ok ==> forall image :: image in d.state.Images() ==> Recovers(StandardStore(tar), env, start, s, image)
    ensures d.Reliable() && NoTemporaries(old(d.state).Now()) ==>
              (ok <==> Packability.CanBePacked(Verifier.Standard(true), s))
  {
    Packability.PackableIff(s);
    var store := StandardStore(tar);
    StandardStoreIsUsable(tar);
    var data;
    data, paths := Packer.Pack(s);
    if data.None? {
      return false, [];
    }
    PackedIsInstallable(tar, s, paths);
    ok := store.Install(d, data.value);
    if ok {
      PackRoundTrip.PackThenExtract(Verifier.Standard(true), env, start, s, paths);
      forall image | image in d.state.Images() ensures Recovers(store, env, start, s, image) {
        assert image[store.archive] == Blob(data.value, true);
      }
    }
  }

  // ----- From enable --once to the menu

  /** enable --once, disable and boots in any order, with crashes anywhere, where
      nothing was enabled for good: a menu for every request, one more for a request
      that was there before, and one more for every removal that failed. */
  method RequestAndBoot(d: Directory, steps: seq<Modes.Step>) returns (menus: nat, failures: nat)
    requires Modes.StandardFlags().ModesOf(d.state) <= {Modes.Off, Modes.Once}
    modifies d
    ensures menus <= (if Modes.Once in Modes.StandardFlags().ModesOf(old(d.state)) then 1 else 0)
                     + Modes.Requests(steps) + failures
    ensures d.Lasting() ==> failures == 0
  {
    Modes.StandardFlagsAreUsable();
    menus, failures := Modes.StandardFlags().Run(d, steps);
  }
}
