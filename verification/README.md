# A model of the pre-boot recovery launcher

The launcher takes the place of `/sbin/init`, can show a menu before the machine boots, and can start a recovery
system from an archive in `/etc/BurningProcess`. This project models its four cores and the two text formats, and
proves what they are for. `dfyconfig.toml` is the project file.

The archive pipeline of `src/cpio.c`:

- `Archive` says how a newc archive is framed, `Newc` how a prefix is printed and read, `ArchiveReader` is the file
  cursor that both parsers share, and `Verifier` is the verifier's loop with its meaning.
- `FileTree` and `FileSystem` are the tree and the system calls on it, any of which may fail. `Extraction` is the
  extractor, `ExtractionMeaning` says what it leaves behind, and `Tidy` says when it needs no implied parents.
  `Extractability` says which accepted archives root can extract, whatever the order of their entries.
- `Packing`, `Packer` and `PackRoundTrip` are the directory walk, the sort, the writer and the end-to-end statement.
  `SourceCheck` is the check of the tree before that, and `Packability` says which source trees are packed, in terms
  of the tree alone.

The crash-safe protocols:

- `Disk` is a directory with pending changes. A crash keeps any part of them, in their order; a rename is kept or
  lost as a whole. A claim about the directory is carried through every state a method passes, for whatever a
  crash would leave of it (`Held`). `Faults` says which calls may fail.
- `StateFile`, `Installation`, `Modes` and `RootfsStore` are install and uninstall, the marker files with the one-shot
  boot, and the archive with its checksum. `Deployment` puts the parts together with the program's own names.

The others: `Sha256Spec` (FIPS 180-4), `Sha256` (the streaming context), `Sha256Constants` and `Sha256Roots`
(where the constants come from); `TarNames`, `Tar` and
`TarExtraction` (tar names over the headers that the archive library reports); `Config` (both configuration files);
`Mounts` (the old-root unmount list); `CStrings` and `Sorting` (the C library functions underneath).

## Where the plain statement is false

- A commit whose rename was made but whose flush failed is rolled back like any other failure. Behind it the machine
  boots exactly if the rollback has removed neither the backup nor the dispatcher (`Installation.Setting.LateCommitBreaks`,
  and the contract of `Installation.Root.Install`). Boot safety holds for every run without such a commit, and without
  any condition when flushes and unlinks do not fail.
- For the same reason a backup or a host configuration whose flush failed after its rename stays
  (`Installation.Setting.LateBackupStays`, `Installation.Setting.LateConfigStays`). A failed install leaves everything as
  it was if and only if no flush behind a rename failed and no removal left its name.
- `enable --persistent` skips the removal of a one-shot request that is already gone. If an earlier removal was never
  flushed, a crash can bring the request back beside the new enable file (`Modes.Flags.RetryCounterexample`);
  `Modes.Flags.SkippedRemoval` gives the exact condition.
- A valid entry path with a line break, or with white space at its end, formats and does not parse back. `Config.RuntimeRoundTrip`
  states the exact condition; parsed and prompted configurations always meet it.
- Passing the walk, the writer and the verifier is not enough for a tree to be packed: the check before them also refuses
  a tree whose etc is a link or a file, and one whose configuration on another device does not load.
  `Packability.SourceCheckAdds` gives the exact condition, `Packability.OneDeviceIff` its form without mounts.
- The verifier accepts a link with an empty target, which no kernel makes (`Extractability.EmptyTargetIsSound`,
  `Extractability.EmptyTargetNeverExtracts`).
- A file named `TRAILER!!!` at the root of the source would end the archive early. The packer's own verification refuses
  it (`PackRoundTrip.TrailerNamedFile`).
- When a tar archive repeats the header of the top directory, also as a regular file of that name, one copy stays in the
  verifier's list while extraction skips all of them. The path sets agree exactly when the header occurs once, and
  an accepted hard link to the repeated name finds no file (`TarExtraction.RepeatedTopCounterexample`).
- `docs/IMPLEMENTATION_PLAN.md` promises a normal unmount of the old root; the code falls back to a lazy one. Only the
  list and its order are modelled.

## Model

| member | source | states |
|---|---|---|
| PackRoundTrip.PackThenExtract | src/cpio.c:586-673 | Whatever the packer puts in place extracts, into an empty directory, and the tree is the packed part of the source: the same paths, kinds, bytes, link targets and permissions, and nothing else |
| Deployment.PackAndInstall | src/cpio.c:903-931 | Pack and then rootfs install: whatever a crash leaves afterwards is accepted and extracts to the source tree; without failing calls it succeeds exactly for the trees that Packability.CanBePacked describes |
| Deployment.RequestAndBoot | src/burning_progress.c:354-399 | With the program's marker files: enable --once, disable and boots in any order, with crashes anywhere, give a menu for every request, one more for a request from before, and one more for every failed removal |
| Packability.PackableIff | src/cpio.c:586-673 | The packer puts an archive in place if and only if the tree passes the check of the source, fits, has no root file of the trailer's name, has a configuration that parses if it has one, and holds the shell, the program and, for a handoff, the entry |
| Packability.SourceCheckAdds | src/cpio.c:601-604 | For a tree that can be archived the check of the source adds exactly: etc is a directory if it is there, the configuration's path fits its buffer, and a configuration that is not packed loads and has its handoff entry |
| Packability.OneDeviceIff | src/rootfs.c:150-155 | On one device a tree is packed if and only if it can be archived, the configuration's path fits, and etc is a directory if it is there |
| Packability.LinkedEtcIsRefused | src/rootfs.c:150-155 | A tree whose etc is a link or a file is never packed |
| SourceCheck.SourceEntryStatus | src/rootfs.c:164-213 | The walk from directory to directory finds exactly what the tree has under the name, without following links, on any device |
| SourceCheck.LoadConfig | src/rootfs.c:255-283 | The default configuration if there is none, what the file says if it is a regular one of at most 64 KiB that parses up to its first NUL, and a refusal otherwise or if etc is no directory |
| SourceCheck.VerifySource | src/rootfs.c:215-253 | Accepts exactly the trees whose configuration loads and that have the shell, the program and, for a handoff, the entry |
| Packability.VerdictIff | src/cpio.c:655-655 | The verifier's verdict on the packed archive is a condition on the tree: it fits, has no trailer name, and holds what a recovery needs |
| Packability.SoundIff | src/cpio.c:471-537 | For a tree that fits, the entry rules of the verifier come down to the configuration entry being a regular file of at most 64 KiB without NUL |
| Packability.CanonicalExists | src/cpio.c:633-633 | Every tree has its packed paths in strict strcmp order |
| Deployment.PackedIsInstallable | src/rootfs.c:67-78 | Every archive the packer puts in place is taken as a newc root file system by bp_rootfs_verify |
| Deployment.FormatsAreTold | src/rootfs.c:32-55 | What starts like a gzip file is only asked of the tar verifier, what starts like newc only of the newc verifier |
| Deployment.StandardSettingIsUsable | src/install.c:91-106 | The program's names, state-file words and SHA-256 digests meet what the installation results ask of them |
| Deployment.StandardStoreIsUsable | src/cpio.c:903-931 | The program's archive and checksum names and its digests meet what the replacement results ask of them |
| Deployment.StandardNamesAgree | include/burning.h:19-25 | The names that the checksum file, its text and the two host configurations share are the same |
| Packing.CollectDirectory | src/cpio.c:109-187 | The recursive walk lists exactly what the walk of the tree meets, in the order of the directory listing, or gives up exactly when a path, a type or the count is out of range |
| Packing.MetIff | src/cpio.c:109-187 | A path is met exactly if it can be reached through directories of the same device |
| Packing.MetOnce | src/cpio.c:109-187 | No path is met twice |
| Packing.ExtendedMeans | src/cpio.c:54-84 | The walk succeeds exactly if all that it meets can be collected and the entry limit holds, and then lists all but the mount points |
| Packing.KeptIsPacked | src/cpio.c:109-187 | From the root, the collected paths are exactly the reachable ones on the device, each once |
| Packing.RouteOfName | src/cpio.c:109-187 | The relative name of a collected path, taken apart at its slashes, is the path again |
| Packing.AncestorIsLess | src/cpio.c:86-91 | strcmp puts a directory strictly before everything in it |
| Packer.SortedIsCanonical | src/cpio.c:633-633 | After the sort the list is all packed paths in strict strcmp order |
| Packer.CanonicalIsUnique | src/cpio.c:633-633 | The written order depends on the tree alone, not on the order in which the kernel lists it |
| Packer.WriteArchive | src/cpio.c:280-351 | The writer prints the items one behind the other and the trailer, or refuses exactly when some data or target is too large |
| Packer.Pack | src/cpio.c:586-673 | An archive is put in place exactly if the source passes its check, the walk succeeds, everything fits, and the verifier accepts the result; it is then the archive of the source |
| PackRoundTrip.PackedParses | src/cpio.c:648-655 | A packed archive parses to one entry per packed path, with its mode, owner, name and data |
| PackRoundTrip.ParentFirst | src/cpio.c:633-633 | Every packed path below the top has its parent directory packed before it |
| PackRoundTrip.SourceIsTidy | src/cpio.c:86-91 | A packed archive has distinct paths and every directory before what is in it, so extraction needs no implied parent |
| PackRoundTrip.TrailerNamedFile | src/cpio.c:655-655 | A source with a root file of the trailer's name is refused, not cut short |
| Newc.HexFieldRoundTrip | src/cpio.c:353-368 | A 32-bit number printed as eight hex digits is read back by the strtoul-based field parser |
| Newc.HexFieldIff | src/cpio.c:353-368 | A field is a number if and only if its text up to a NUL is a strtoul spelling in base sixteen of at most 32 bits, or empty |
| Newc.HeaderBytes | src/cpio.c:206-220 | The printed header byte range by byte range: the magic and thirteen fields of eight digits in the order of the format |
| Newc.HeaderRoundTrip | src/cpio.c:375-398 | A printed header is read back whatever follows it |
| Newc.PrefixRoundTrip | src/cpio.c:206-220 | A printed header, name and padding are read back with the same fields, name and length |
| Newc.RecordsAreFaithful | src/cpio.c:206-248 | Every entry the writer can print is what the reader sees, at its size, whatever follows |
| Newc.NewcRoundTrip | src/cpio.c:280-351 | Parsing what the writer prints gives back exactly the entries, consuming every byte, unless one is called like the trailer; then it always fails |
| Archive.ParseIffArchive | src/cpio.c:471-530 | Bytes parse to a list of entries exactly if they are these entries encoded one behind the other and a trailer at the very end |
| Archive.HeadersAligned | src/cpio.c:189-192 | Every header and the trailer start at an offset that is a multiple of four |
| Archive.TrailerNameRefused | src/cpio.c:484-496 | An archive with an entry of the trailer's name, whatever is behind it, does not parse |
| ArchiveReader.ParseFields | src/cpio.c:353-398 | The field loop succeeds exactly if all thirteen fields parse and the name size is in range |
| ArchiveReader.Reader.SkipData | src/cpio.c:430-442 | The skipping loop succeeds exactly if data and padding are there, and ends behind them |
| ArchiveReader.Reader.ReadPrefix | src/cpio.c:375-405 | The cursor's reads give what the bytes behind it say, and end at the data |
| Verifier.IsValidName | src/cpio.c:407-428 | Accepts exactly the relative names of plain components, with at most one slash at the end |
| Verifier.ValidNameIff | src/cpio.c:407-428 | An accepted name is relative, of at most 4096 characters, and no component of it is . or .. or, but for the last, empty |
| Verifier.FindPath | src/cpio.c:444-453 | Finds an entry of the name exactly if one was listed |
| Verifier.TakeTurn | src/cpio.c:471-530 | One turn of the loop: a refusal means the archive is not acceptable, the end means all of it was read, and otherwise one more entry stands |
| Verifier.AddEntry | src/cpio.c:498-502 | The list, the kept configuration text and the exact sum of the data; the 64-bit sum never wraps |
| Verifier.HasKind | src/cpio.c:538-565 | The search of the sorted list tells exactly whether an entry of the name and kind is there |
| Verifier.BootableIff | src/cpio.c:538-565 | A recovery archive has what it needs exactly with the shell, the program and, for a handoff, a regular file under the configured entry without its slash |
| Verifier.VerifyArchive | src/cpio.c:455-578 | The cursor loop, the sort and the searches compute the verdict and the report that the bytes define |
| Verifier.AcceptedIffSound | src/cpio.c:471-537 | Entry-by-entry acceptance is the same as: at most a million entries, pairwise distinct valid names, allowed types, bounded targets and configuration |
| Verifier.VerifiedMeans | src/cpio.c:455-578 | An archive is accepted with a report exactly if it is a complete sequence of sound entries ending at its trailer, the report counts entries and bytes exactly, and a recovery system has what it needs to boot |
| Extraction.EnsureSafeParent | src/cpio.c:675-722 | Every parent is a real directory or is made; a symbolic link or file on the way is a failure; nothing outside is touched |
| Extraction.CopyExact | src/cpio.c:741-765 | The file grows by exactly the bytes of the archive, through short writes, or by a part of them on failure |
| Extraction.ExtractFile | src/cpio.c:827-839 | A new file with the entry's bytes, permissions and, for root, owner; it fails exactly if the path is taken or ends in a slash, when calls are reliable |
| Extraction.ExtractDirectory | src/cpio.c:815-826 | A directory is there afterwards, new or old; anything else at the path is a failure |
| Extraction.ExtractEntries | src/cpio.c:792-861 | The second parser meets exactly the entries the verifier accepted; its own checks never fail |
| Extraction.ExtractLinks | src/cpio.c:862-868 | Links are made after all files, never over anything that is there and never to an empty target |
| Extraction.StampAll | src/cpio.c:869-877 | Directory metadata is set from the last directory to the first, without leaving the tree |
| Extraction.NextParsed | src/cpio.c:792-806 | What the second parser finds at the cursor is the next entry the first one found, and the trailer exactly at the end |
| Extraction.WalkStays | src/cpio.c:675-722 | In a rooted tree a walk to a directory never leaves the tree |
| FileTree.Env.WalkIff | src/cpio.c:675-722 | The kernel's walk leaves the tree exactly by an empty, . or .. component or a symbolic link, met before anything else stops it, and stays inside exactly through directories that may be entered |
| FileTree.Env.LocateLeaves | src/cpio.c:675-722 | A call on a path leaves the tree exactly if the walk before it does, or by a dot, or by a link that it looks through |
| Extraction.Extract | src/cpio.c:767-887 | However the run ends, nothing was done outside the destination, no link existed before all files were created, filled and sealed, and directory metadata came last; a success leaves exactly the tree the archive defines, and reliable calls succeed exactly if there is one |
| ExtractionMeaning.ExtractedMeans | src/cpio.c:767-887 | After a success every entry is at its path as a file, link or directory, and every node is there for an entry: its own, or as an implied parent |
| Tidy.TidyIsExtracted | src/cpio.c:767-887 | Extraction of an archive with parents first and distinct paths does not fail on reliable calls, although permissions may lock directories |
| Tidy.TidyMeans | src/cpio.c:767-887 | Its tree is the entries, each at its path, and nothing else |
| Extractability.ExtractedIff | src/cpio.c:767-887 | For root and reliable calls, entries are extracted if and only if only directories end in a slash or have another entry at or below their path and no link has an empty target, in whatever order the entries are |
| Extractability.AcceptedExtracts | src/cpio.c:767-887 | The same for every archive that the verifier accepts |
| Extractability.EmptyTargetNeverExtracts | src/cpio.c:862-868 | An archive with a link of empty target is never extracted |
| Extractability.EmptyTargetIsSound | src/cpio.c:488-525 | although the verifier accepts such a link |
| FileSystem.Files.Create | src/cpio.c:820-832 | The exclusive creation of a file: where it leads, when it fails, what it changes |
| FileSystem.Files.Stamp | src/cpio.c:869-877 | chown and chmod of a directory, which follow links; changes at most that directory |
| Disk.Directory.Sync | src/common.c:110-130 | After a flush a crash can leave nothing but the present contents; a failed one leaves open what is flushed |
| Disk.CrashesIff | src/common.c:140-260 | A crash leaves what any selection of the pending changes, in their order, makes of the flushed contents |
| Disk.TemporariesDiffer | src/common.c:132-150 | Temporaries of one name differ unless process and counter agree |
| Disk.Directory.AtomicWrite | src/common.c:172-219 | The name has its new contents, flushed, or its old ones, at every point and after every crash; a success lasts and changes nothing else, a failure changes nothing when flushes and unlinks work, and until the rename nothing is flushed |
| Disk.Directory.AtomicLink | src/common.c:287-331 | The same for a link; what was certain before stays so unless the rename was made |
| Disk.Directory.RemoveSynced | src/common.c:333-350 | The name is gone and the directory flushed, or nothing changed, or only the flush failed |
| StateFile.ExtractValue | src/install.c:108-133 | The first line with the key and a value that is not empty decides |
| StateFile.FirstValueIff | src/install.c:108-135 | A value is found for a key exactly if it is not empty, fits, and stands on the first line that gives the key one |
| StateFile.StandardText | src/install.c:91-106 | The six lines of the state file, word for word |
| StateFile.StateIff | src/install.c:135-176 | A text holds a state if and only if it has version 1, the dispatcher's path as target, a kind and two digests of 64 characters |
| StateFile.StandardWordsAreUsable | src/install.c:91-106 | No key of the program is another one or a line break in disguise |
| StateFile.StateFits | src/install.c:91-106 | The text fits the buffer it is printed into |
| StateFile.StateRoundTrip | src/install.c:91-176 | read_state of what format_state prints is the same backup kind and digests |
| Installation.Root.Rollback | src/install.c:237-252 | Nothing changes but that names the installation may have made go away, and all of them do when no removal fails |
| Installation.Root.BackupOriginal | src/install.c:48-89 | The backup is the original init, under a name that was free; a late flush leaves that name behind a failure |
| Installation.Root.EnsureConfig | src/config.c:164-197 | A host configuration that is there is untouched, otherwise the default is written |
| Installation.Root.Commit | src/install.c:232-234 | The link takes the place of init at once; whatever a crash keeps, the machine boots |
| Installation.Root.Install | src/install.c:178-254 | Every state on the way boots after any crash unless the commit's flush failed; a success is exactly the installed contents; a failure leaves the contents as before if and only if no flush behind a rename failed and no removal left its name; behind a late commit the machine boots, whatever a crash leaves, if and only if backup and dispatcher are still there; without failing calls it succeeds exactly if its conditions hold |
| Installation.Root.Abort | src/install.c:237-252 | The rollback restores the contents if and only if no flush came too late and nothing that it removes is left |
| Installation.Root.ReadyToUninstall | src/install.c:271-294 | The checks hold exactly for a readable state, the dispatcher link, the recorded program and a backup of the recorded kind |
| Installation.Root.ChangedDispatcherIsRefused | src/install.c:284-288 | A dispatcher that does not have the recorded digest is not removable |
| Installation.Root.ChangedBackupIsRefused | src/install.c:266-293 | A backup that is gone or of another kind, or an init that does not lead to the dispatcher, is refused as well |
| Installation.Root.ChangedProgramIsKept | src/install.c:304-307 | A program that does not have the recorded digest is left where it is |
| Installation.Root.Uninstall | src/install.c:256-310 | Every state on the way boots; a success has the original init back for good and takes out exactly what the installation added |
| Installation.Root.UninstallUndoesInstall | src/install.c:295-308 | Uninstalled contents of installed contents are the contents before |
| Installation.Root.InstallThenUninstall | src/install.c:178-310 | With any other records written in between, uninstall succeeds and the directory of init is as it was |
| Installation.Root.Live | src/install.c:178-310 | Over all runs of install, uninstall and other commands, cut by crashes anywhere, every state boots with the original init or with a complete dispatcher, unless a commit's flush failed |
| Installation.Setting.LateCommitBreaks | src/install.c:232-252 | From any prepared contents, behind the commit's rename and any removals, the machine boots if and only if neither backup nor dispatcher was removed |
| Installation.Setting.LateBackupStays | src/install.c:218-221 | A backup renamed without its flush survives the rollback: the contents are not as before |
| Installation.Setting.LateConfigStays | src/install.c:229-231 | The same for the host configuration |
| Installation.StandardPlacesAreUsable | src/install.c:178-310 | The program's names are distinct and no temporaries |
| Installation.StandardPaths | include/burning.h:15-18 | The four compiled-in paths; the link that install puts in the place of init has the path of the copied dispatcher as its text |
| Modes.Flags.EnableOnce | src/burning_progress.c:354-383 | At every crash point the old mode or the one-shot mode; a success is one-shot for good |
| Modes.Flags.EnablePersistently | src/burning_progress.c:354-383 | At every crash point the old mode or the persistent mode, if and only if the skipped-removal condition holds, once the enable file is renamed; a success is persistent for good |
| Modes.Flags.SkippedRemoval | src/burning_progress.c:374-382 | When the one-shot file is already gone, creating the enable file keeps to the old modes and the new one if and only if the condition holds |
| Modes.Flags.RetryCounterexample | src/burning_progress.c:374-382 | A removal that was never flushed lets a crash turn the retry into a one-shot request |
| Modes.Flags.Disable | src/burning_progress.c:385-399 | At every crash point the old mode or none; a success lasts if and only if the file was there or no crash could have left a mode |
| Modes.Flags.Boot | src/runtime.c:734-738 | The menu comes exactly if the console opens and a mode is set; a one-shot request is consumed for good before the menu |
| Modes.Flags.TakeBoot | src/runtime.c:734-738 | The same when the machine stops in any state of the boot, also between the unlink and its flush |
| Modes.Flags.Boots | src/runtime.c:734-738 | One enable --once gives at most one menu over any sequence of boots and crashes, also inside a boot, and one more for every removal that failed |
| Modes.Flags.Run | src/burning_progress.c:354-399 | The same for any sequence of enable --once, disable and boots, each of which a crash may cut short: menus are bounded by requests and failed removals |
| RootfsStore.ReadDigest | src/cpio.c:950-958 | The loop yields 64 characters exactly if none of them ends the digest |
| RootfsStore.StoredDigestIff | src/cpio.c:950-958 | A digest is the first 64 characters, none of them NUL, blank, tab or line feed |
| RootfsStore.DigestIsStored | src/cpio.c:919-924 | The digest at the front of a checksum file is read back |
| RootfsStore.Store.VerifyInstalled | src/cpio.c:933-964 | Accepts exactly an archive that has the stored digest and verifies |
| RootfsStore.Store.Install | src/cpio.c:903-931 | At every crash point whole files, and the new checksum only beside the new archive; a success is accepted after any crash |
| RootfsStore.Store.AcceptedDuringReplacement | src/cpio.c:933-964 | At any point of a replacement an installed archive is accepted if and only if the old pair is there and was accepted, or the new archive verifies and stands beside its own checksum or an old one with the same digest |
| RootfsStore.Store.HalfReplacedIsRefused | src/cpio.c:903-964 | The new archive beside the checksum of an earlier one is refused unless the digests agree |
| RootfsStore.Store.SettledFound | src/cpio.c:903-931 | In a flushed directory the old pair of a replacement is the one that is there |
| Sha256.PrepareSchedule | src/sha256.c:60-72 | The 64 words of the array are the message schedule of FIPS 180-4 section 6.2.2, for any bit operations; the actual ones are those of RotationIsShifts and ShiftIsShift |
| Sha256.RunRounds | src/sha256.c:73-95 | The rolling update of eight variables is the 64 rounds of section 6.2.2, modulo 2^32, for any bit operations |
| Sha256.Context.Transform | src/sha256.c:47-104 | The new state is the compression function of the old one and the buffered block |
| Sha256.Context.Absorb | src/sha256.c:117-133 | One turn of the loop takes octets and keeps: state is the fold over full blocks, buffer the tail |
| Sha256.Context.Update | src/sha256.c:117-133 | Any chunk, also an empty one, is appended to the message and the invariant kept |
| Sha256.Context.AppendPadding | src/sha256.c:135-150 | Both padding cases leave the message, 0x80 and the number of zeros of section 5.1.1 |
| Sha256.Context.Final | src/sha256.c:135-157 | The digest is the output of the fold over the padded message |
| Sha256.SameOctets | src/sha256.c:147-152 | Numbers that differ by a multiple of 256^k have the same k low octets |
| Sha256.LengthWraps | src/sha256.c:117-157 | Wrap-around of the 64-bit bit count does not change the length field |
| Sha256Constants.RotationIsShifts | src/sha256.c:36-39 | The source's rotate_right, two shifts and an or, is the rotation of FIPS 180-4 on 32-bit words |
| Sha256Constants.ShiftIsShift | src/sha256.c:63-72 | The source's shift is the shift of FIPS 180-4 on 32-bit words |
| Sha256Constants.SourceSigmas | src/sha256.c:60-80 | The four sigma functions rotate and shift by the source's amounts |
| Sha256Constants.ChChooses | src/sha256.c:73-84 | Ch takes each bit from y where x has one and from z elsewhere |
| Sha256Constants.MajIsMajority | src/sha256.c:73-84 | Each bit of Maj is the one that two of the three have |
| Sha256Spec.PadMeans | src/sha256.c:135-150 | The padded message is the message, 0x80, zeros and the bit length as a big-endian number of eight octets, and has the shortest length divisible by 64 |
| Sha256Roots.ConstantsAreRoots | src/sha256.c:17-34 | The 64 constants are the first 32 fractional bits of the cube roots of the first 64 primes, in order |
| Sha256Roots.InitialValueIsRoots | src/sha256.c:106-115 | The initial value is the first 32 fractional bits of the square roots of the first eight primes |
| Sha256.FileDigest | src/sha256.c:159-197 | For every message and every split into chunks the text is the hash of the whole message in 64 hex digits |
| Sha256.PrintHex | src/sha256.c:191-195 | The printing loop gives two lower-case digits an octet |
| Sha256.HexInjective | src/sha256.c:191-195 | Equal texts come from equal digests |
| Sha256Constants.Sha256File | src/sha256.c:159-197 | With the constants and bit operations of FIPS 180-4 it is SHA-256 |
| TarNames.NormalizePath | src/tar.c:111-157 | Leading and trailing parts are dropped and every remaining component is plain, or the name is refused |
| TarNames.LeadingDots | src/tar.c:123-125 | Any name with ./ in front of it normalises like the name |
| TarNames.TrailingSlash | src/tar.c:126-129 | Any name with a slash behind it normalises like the name |
| TarNames.NormalizesTo | src/tar.c:111-157 | A name becomes a path if and only if it is that path with any run of ./ before it and of slashes behind it |
| TarNames.NormalizesToRoot | src/tar.c:126-134 | A name is the root if and only if nothing or a dot is left of it then; every other name is refused |
| TarNames.IsPathIff | src/tar.c:135-152 | A path is relative, shorter than 4096 characters, and no component of it is empty, . or .. |
| TarNames.NormalizeAgain | src/tar.c:111-157 | Normalising a normalised name changes nothing |
| TarNames.StrippedIsPath | src/tar.c:171-198 | What is left of a path below the prefix is a normalised path, and together they are the path |
| TarNames.StripIff | src/tar.c:171-198 | What is left of a path is rest exactly if the path is the prefix, a slash and rest; the prefix itself becomes the root |
| TarNames.StripIsInjective | src/tar.c:171-198 | Stripping never merges two paths |
| Tar.ListedIsNormal | src/tar.c:375-448 | A listed item has a normalised path and target and an allowed type, a hard link is a regular file, and listing the item's own names again gives the item |
| Tar.ListedIff | src/tar.c:375-448 | A header is listed as an item if and only if its names are the item's paths up to leading ./ and trailing slashes and its type is a hard link without data, a file, an empty directory or a link to something |
| Tar.SkippedIff | src/tar.c:388-394 | Only a header of the archive's root is passed over |
| TarExtraction.ListingMeans | src/tar.c:375-448 | The list has one item for each header that does not name the root, in archive order, with its position as order |
| Tar.TarList.Collect | src/tar.c:375-448 | The header loop yields the list in archive order, or refuses exactly when some header is refused |
| Tar.TarList.Select | src/tar.c:200-241 | The first directory that holds every path and link target, if there is one |
| Tar.HoldsAllIff | src/tar.c:200-241 | A top directory has a path of one component, and every other path is that, a slash and more |
| Tar.TarList.ApplyRoot | src/tar.c:200-265 | The list rewritten in place is the old list without the prefix, and without the top directory, in the same order |
| Tar.VerifyHardlinks | src/tar.c:334-354 | The binary searches succeed exactly if every link has an earlier regular file that is no link |
| Tar.CheckList | src/tar.c:458-484 | Sort, neighbour test and searches accept exactly a list of distinct paths whose links resolve |
| Tar.VerifyNames | src/tar.c:375-484 | The names are accepted exactly if some list meets all conditions, and the sorted list is that one |
| Tar.VerdictIsUnique | src/tar.c:200-265 | The accepted list is determined by the headers |
| TarExtraction.ItemRecomputed | src/tar.c:608-656 | For the header of a listed item the extraction loop finds the item's stripped path and target, or skips it if it is the top directory |
| TarExtraction.NamesAgree | src/tar.c:608-656 | Extraction fails on no accepted header, skips those of the top directory, and finds for all others exactly the listed path and target |
| TarExtraction.PathSetsAgree | src/tar.c:242-263 | Extracted and listed paths are the same if and only if the top directory's header occurs once |
| TarExtraction.LinkFindsFile | src/tar.c:474-484 | Every link has an earlier header of a regular file with its target's name, which is extracted exactly unless it repeats the top directory's name |
| TarExtraction.LinksAreExtracted | src/tar.c:608-656 | With a single top header every link finds its file already extracted |
| TarExtraction.ExtractNames | src/tar.c:608-656 | The loop passes on the recomputed names in order |
| TarExtraction.AcceptedDoesNotFail | src/tar.c:608-656 | The checks that the loop makes again never fail behind the verifier |
| TarExtraction.RepeatedTopCounterexample | src/tar.c:242-263 | An accepted archive with a repeated top name whose link finds nothing |
| Config.ComponentsArePlain | src/config.c:206-227 | The component loop accepts exactly plain components, with one empty one allowed at the end |
| Config.PlainPathIff | src/config.c:206-227 | The path test means: no component is . or .., and none but the last is empty |
| Config.ValidateEntry | src/config.c:206-227 | Accepts exactly the absolute paths of such components that fit |
| Config.ValidEntryIff | src/config.c:206-227 | A valid entry is absolute, shorter than 4096 characters, and no component of it is . or .. or, but for the last, empty |
| Config.TrimInPlace | src/config.c:10-23 | Cuts white space at both ends and nothing else |
| Config.SpacedPairIsRead | src/config.c:93-113 | White space around the key and around the value of a line says nothing |
| Config.CommentIsIgnored | src/config.c:97-102 | A line of white space is ignored, with or without a comment behind it |
| Config.ParseUintOfDecimal | src/config.c:25-37 | A printed number in range is parsed back |
| Config.ParseUintIff | src/config.c:25-37 | A text is a number if and only if it is spelled with optional white space, an optional sign and decimal digits, fits 64 bits, and is not above the maximum |
| Config.Note | src/config.c:229-304 | The seen bits detect exactly the second setting of a key |
| Config.Parse | src/config.c:229-304 | The loop over lines refuses exactly if a line is refused or a key is set twice, and otherwise settles the configuration |
| Config.CommentsAreFree | src/config.c:97-102 | A comment or blank line, wherever it stands, changes the meaning of no configuration text |
| Config.RefusedLineRefuses | src/config.c:244-290 | One refused line refuses the text, wherever it stands |
| Config.ParseRuntime | src/config.c:229-304 | The runtime parser yields the meaning of the text |
| Config.ParsedRuntimeIff | src/config.c:229-304 | A text is a runtime configuration if and only if every line is ignored or says with one of the three keys what is true of it, no key stands twice, and what has no line is as in the defaults |
| Config.ParseHost | src/config.c:78-148 | The host parser yields the meaning of the text |
| Config.ParsedHostIff | src/config.c:78-148 | The same for host configurations, with the timeout up to 3600 and the three choices by name |
| Config.RuntimeFits | src/config.c:306-331 | A valid runtime configuration is formatted without truncation |
| Config.ParsedIsClean | src/config.c:229-304 | Whatever is parsed has an entry without line breaks or trailing blanks |
| Config.RuntimeRoundTrip | src/config.c:306-331 | A valid configuration survives format and parse if and only if its entry has no line break and no white space at its end |
| Config.ParsedRoundTrip | src/config.c:229-331 | Every parsed configuration formats, and parses back to itself |
| Config.PromptEntryPath | src/burning_progress.c:529-565 | The prompt loop takes the first answer that formats and changes nothing but the entry |
| Config.AnswerIs | src/burning_progress.c:529-565 | An answer of white space keeps the entry, and any other is taken without the white space around it |
| Config.PromptRoundTrip | src/burning_progress.c:447-565 | What a prompt saves is what is read back |
| Config.HostFits | src/config.c:150-162 | A host configuration in range is formatted without truncation |
| Config.ParsedHostInRange | src/config.c:78-148 | Whatever is parsed has the supported version and a timeout up to the maximum |
| Config.HostRoundTrip | src/config.c:78-162 | A host configuration survives format and parse if and only if version and timeout are in range |
| Mounts.DecodeInPlace | src/runtime.c:364-380 | The two-pointer decoder leaves the decoded text in the buffer; the write position never passes the read position |
| Mounts.DecodeFirst | src/runtime.c:364-380 | Only a backslash with three octal digits behind it stands for something else, and for the byte of that value |
| Mounts.DecodeOfEncode | src/runtime.c:364-380 | Decoding inverts the octal escaping of mountinfo, whatever is escaped beside the backslash |
| Mounts.LineShowsPath | src/runtime.c:554-567 | A line of four fields, the escaped path and more shows the path as its mount point |
| Mounts.ShortLine | src/runtime.c:554-567 | A line of fewer than five fields shows none |
| Mounts.CollectedIff | src/runtime.c:554-586 | A path is listed exactly if a line shows a mount there and it is at or below the old root |
| Mounts.MountsAreCollected | src/runtime.c:554-586 | From the lines that the kernel writes for some mounts, exactly the paths at or below the old root are listed |
| Mounts.MountsToUnmount | src/runtime.c:540-591 | The sorted list is exactly these mounts, and every nested mount comes before the mounts it is in |
| CStrings.StrtoulOfDigits | src/cpio.c:353-368 | strtoul of plain digits reads all of them and yields their number |
| CStrings.StrtoulIff | src/cpio.c:353-368 | strtoul reads all of a text as a number if and only if it is white space, a sign, a prefix and digits that spell it; a minus takes the complement to 2^64 |
| CStrings.LessIff | src/cpio.c:86-91 | strcmp is decided by the first place where the texts differ, the end of a text coming before any character |
| CStrings.SplitOfJoin | src/cpio.c:675-722 | Joined parts without the separator are the parts again when split |
| Sorting.QsortBy | src/runtime.c:589-591 | The result is ordered and holds the same records |
| Sorting.AdjacentDuplicate | src/cpio.c:531-537 | Behind the sort the test of neighbours finds a duplicate exactly if there is one |
| Sorting.Bsearch | src/tar.c:91-101 | The search finds a record of the name exactly if there is one |

## Left out

- libarchive, gzip and the bytes of tar headers: foreign code. Tar input is a sequence of headers (path, link targets, mode, size).
- The recovery checks, the configuration text and the sum of sizes in the tar verifier: the newc verifier has the same checks with the harder sum.
- Writing tar files from a source tree (`bp_tar_gzip_pack`), and the contents that tar extraction writes: only the names are modelled.
- Mounts, `pivot_root`, swap, processes, signals and the unmount calls themselves: system calls without logic. A mountinfo line longer than the line buffer is not modelled.
- Menu, console output, prompt wording, the prompt for the entry mode and the parsing of the command line: user interface.
- Error texts, failing allocations, growth of arrays, and the path buffers of single calls, which appear as calls that fail.
- The temporary file, flush and rename of the packer's output: the result of packing is the archive that is put in place, or none.
- The realpath test that refuses an output inside the source, and changes to the source or to the archive while the program runs.
- Modification times read back, owners of links, ACLs, extended attributes, and set-id bits cleared by the kernel: the code does not keep or check them.
- Endless retries after interrupted writes: a write takes some bytes or fails. Calls that only read (lstat, readlink, reading a file for its digest) fail only where a method says so.
- PackRoundTrip.PackThenExtract: assumes that the destination, and a directory made with mode 0755 under the caller's umask, can be entered and written by the owner.
- Packability.PackableIff: the source is named by a path other than the root directory and without slashes at its end, and is read by somebody who may read all of it.
- Extractability.ExtractedIff: the kernel's length limits (255 bytes for a component, 4095 for a path or a target) count as failing calls.
- Disk.Directory.AtomicWrite: takes the directory it works in as durable; bp_mkdir_p does not flush the directories it makes, and that is not modelled.
- Installation.Root.Live: a run ends at a commit whose flush failed; nothing is claimed about what follows. Inits other than the original one that somebody else installs are not modelled.
- Installation.Root.Install: the digest is any function with 64-character results; Deployment.StandardSettingIsUsable supplies SHA-256.
- RootfsStore.Store.Install: what verifies is any predicate; Deployment.StandardStore supplies the newc verifier, with the tar verifier as a parameter.
- Modes.Flags.Boot: the check that the program is installed and the other trigger, the kernel command line, are not modelled.
- Sha256.FileDigest: the constants and bit operations are a parameter, Sha256Constants.Standard the actual ones. Nothing is said about collisions.
- Bytes are characters up to 255 where a value matters, and strcmp compares them as unsigned. A NUL inside the state file or the checksum file is not modelled.
- strtoul is modelled for a 64-bit unsigned long, qsort and bsearch by their contracts with bodies of this project's own.
