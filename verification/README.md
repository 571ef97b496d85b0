# atomic-rollback: a verified model

atomic-rollback moves a Fedora system to a boot layout on btrfs, takes snapshots of the root
subvolume, and rolls back by exchanging two directory entries. This project models its four parts
and proves what they are for:

- **Texts.** The byte scanners for mount options, kernel command lines and boot entries
  (`Scanners`), the boot entry grammar and the kernel hook's repair (`Bls`, `BlsText`, `BlsRepair`), the ESP
  stub (`EspStub`), fstab and its two rewrites (`Fstab`, `FstabRewrite`), the subvolume list
  (`SubvolList`), on top of `Text`, `Numbers` and `Wrappers`.
- **The migration state machine.** States, axioms and steps with unbounded subvolume ids
  (`Migration`), interruption and restart (`Resume`), power loss with a btrfs disk image and an ESP
  that are written back independently (`PowerLoss`), and the migrate command as it is written, with
  its gates after its steps (`MigrateRun`, `MigrateCases`).
- **The subvolume namespace.** Disks (`Store`), automatic names (`AutoName`), retention
  (`Retention`), the class of the operations (`Operations`), rollback (`Rollbacks`), runs
  (`NamespaceRuns`, `Snapshots`, `OldRoot`), and how an argument names a snapshot (`Resolve`).
- **The gate.** The decision procedure over a host and the declarative chain it decides
  (`Gate`, `Verdict`), what it makes of the texts the tool writes (`GateLinks`), and rollback with its
  verdict (`GatedRollback`).

Scanners, loops and operations with effects are methods; each is proved equal to a function or a
declarative predicate, and the lemmas are about those. Text is a sequence of characters;
whitespace is the ASCII kind. What the outside world answers (devices, mounts, commands that may
fail, the clock, the order of a listing) is a parameter.

## Where the code and its documentation differ

The model follows the code. For each point there is a failing case and the exact condition.

- The guarantee that the system boots if power is lost at any point (the repository's README.md:86)
  does not hold for the order of the migrate command: it syncs once, after step 10, while step 9
  changes another file system. `PowerLoss.MigrateWithoutCommitCanFail` is the case,
  `PowerLoss.PowerLossExact` the condition, `PowerLoss.SyncBeforeSwitchSuffices` a remedy.
- A migration step that fails does not always leave the system unchanged (README.md:48):
  `MigrateCases.BadGrubCfgStaysLive`, `MigrateCases.DefaultStaysSet` and
  `MigrateCases.BootStaysUnmounted` are cases, `MigrateRun.FailureLeavesUnchangedExactly` is the
  condition, step by step.
- Not every exchange follows a verification (README.md:92): in `migrate.rs` the gate of steps 5, 6,
  7, 9 and 10 comes after the exchange, and only step 9 checks the text it has rendered before.
  `MigrateCases.BadGrubCfgStaysLive` is a case, `MigrateRun.UnverifiedLiveExactly` the condition on
  the turns of a run. In `proof.rs`, which `Migration` models, every swap does need a verification
  (`Migration.SwapsNeedVerification`).
- Some operation does delete a subvolume for /var (README.md:122, proof.rs:64): step 10 deletes an
  existing `var` whenever /var is not a mount point. `MigrateCases.OldVarIsLost` is a case,
  `MigrateCases.VarSurvivesExactly` the condition.
- `setup` is said to enable rollback on the stock layout (README.md:46), but a snapshot there has no
  grub.cfg of its own and is refused: the last clause of `GatedRollback.Rollback`.
- The durable state of `proof.rs` (proof.rs:53-59) speaks for btrfs only, since the sync does not
  reach the ESP: `PowerLoss.DurableBitMissesEsp`, `PowerLoss.DurableNeedsEsp`.
- Rollback either completes or does not happen (README.md:90) unless an undo fails as well:
  `Rollbacks.FailedUndoBreaks`, `Rollbacks.AllOrNothing`, `Rollbacks.DefaultFollowsRoot`. A failed
  sync is reported as an error of a rollback that did happen (`Operations.Namespace.Rollback`).
- The previous root is preserved (README.md:58), but under an automatic name it takes part in
  retention: `OldRoot.OldRootIsLost`, `OldRoot.OldRootEvicted`.
- The reconstruction of a boot entry line called lossless (tools.rs:570) gives the trimmed line for
  fields, and joining lines drops final line breaks and carriage returns: `BlsText.IndentIsLost`,
  `BlsText.RawIsLossless`, `BlsText.WrittenIsLossless`.
- A repaired boot entry keeps its keys only if its `linux` and `initrd` lines have values, since the
  rewrite of a bare key joins key and path: `BlsRepair.BareInitrdLosesItsKey`,
  `BlsRepair.KeysKeptExactly`.
- Separating /var writes the decoded device text back without encoding it again (migrate.rs:361), so
  a device name with an escaped space is lost: `FstabRewrite.LabelWithSpaceFails`,
  `FstabRewrite.VarSeparationExact`.
- The ESP stub parses back to itself only while its directory does not itself hold the words that
  mark a btrfs-relative stub: `EspStub.MisleadingDirFails`, `EspStub.RoundTripExact`. Step 9 never
  renders such a stub: its stub is btrfs-relative.

## Model

| member | source | states |
|---|---|---|
| `Scanners.MatchAt` | crates/atomic-rollback/src/parse.rs:32-56 | The byte comparison answers whether the needle stands at that position, also past the end of the text. |
| `Scanners.FindOption` | crates/atomic-rollback/src/parse.rs:61-133 | The nested comma scan returns exactly the range after key and `=` to the next comma in the first field that begins with them, or none; any text, any key. |
| `Scanners.FirstWithPrefixExact` | crates/atomic-rollback/src/parse.rs:61-133 | What that value is, both ways: some field is key, `=`, value and no earlier field begins with key and `=`; none exactly when no field does. |
| `Scanners.KeyWithCommaFindsNothing` | crates/atomic-rollback/src/parse.rs:61-133 | A key that contains the separator is found in no text. |
| `Scanners.FindRootUuid` | crates/atomic-rollback/src/parse.rs:137-194 | The token scan returns exactly the range after the prefix to the end of the token in the first space- or tab-separated token that goes on after the prefix, or none. |
| `Scanners.FirstLongerExact` | crates/atomic-rollback/src/parse.rs:137-194 | Both ways: the first token that is the prefix and a non-empty rest decides; none exactly when no token extends the prefix. |
| `Scanners.FindField` | crates/atomic-rollback/src/parse.rs:202-297 | For every key, from any start position: the range of the first field of this key on the lines that follow, and none only when there is none. |
| `Scanners.FieldOfExact` | crates/atomic-rollback/src/parse.rs:202-297 | The value of a key on one line, both ways: blanks, key, at least one blank, value without outer blanks or carriage returns, and not a comment. |
| `Scanners.BlsField` | crates/atomic-rollback/src/parse.rs:322-325 | For every key the first of all its values; none exactly when there are none. |
| `Scanners.BlsFieldAll` | crates/atomic-rollback/src/parse.rs:331-352 | For every key its values, in order and once each, line by line when the key has no line break; the outer loop terminates. |
| `Scanners.AllValuesByLine` | crates/atomic-rollback/src/parse.rs:331-352 | For a key without a line break the values found in the content are the values of its lines. |
| `Scanners.BrokenKeyValues` | crates/atomic-rollback/src/parse.rs:202-297 | A key with a line break can match beyond its line; all its values are then empty. |
| `Bls.LineAgrees` | crates/atomic-rollback/src/tools.rs:580-608 | On one line the field scanner and the line grammar see the same key, and the same value when there is one. |
| `Bls.ParsersAgree` | crates/atomic-rollback/src/tools.rs:580-608 | For a clean text and any word as key, both parsers give the same non-empty values in order, and the same values when every field has one. |
| `BlsRepair.ReparseValued` | crates/atomic-rollback/src/tools.rs:563-608 | A field with a value, written out and parsed again, is that field. |
| `BlsText.RawIsLossless` | crates/atomic-rollback/src/tools.rs:569-576 | A line parsed and written back is itself if and only if it is no field or has no whitespace at its ends. |
| `BlsText.IndentIsLost` | crates/atomic-rollback/src/tools.rs:569-576 | Every indented bare field is a failing line. |
| `BlsText.WrittenIsLossless` | crates/atomic-rollback/src/kernel_hook.rs:170-184 | A text whose lines are written back unchanged and joined is itself if and only if it does not end in a line break, has no carriage return before one, and every field line is trimmed. |
| `BlsRepair.RepairedFields` | crates/atomic-rollback/src/kernel_hook.rs:170-184 | The repaired text has exactly the rewritten fields, in order, and no others; also for fields without a value. |
| `BlsRepair.RepairIsLens` | crates/atomic-rollback/src/kernel_hook.rs:147-184 | For every clean entry and every key, reading the repaired entry gives the old values that are not empty, in order, with the new ones put in their places. |
| `BlsRepair.OnlyEmptyValuesGo` | crates/atomic-rollback/src/kernel_hook.rs:170-184 | A key keeps all its values through the repair if and only if none of them is empty. |
| `BlsRepair.OtherKeysUnchanged` | crates/atomic-rollback/src/kernel_hook.rs:170-184 | The non-empty values of every key other than `linux` and `initrd` stay as they were; all values do if and only if none is empty. |
| `BlsRepair.RepairClearsTest` | crates/atomic-rollback/src/kernel_hook.rs:149-184 | The repaired entry no longer asks for repair, for every clean entry. |
| `BlsRepair.FixIsIdempotent` | crates/atomic-rollback/src/kernel_hook.rs:147-184 | A second run changes nothing, for every clean entry. |
| `BlsRepair.KeysKeptExactly` | crates/atomic-rollback/src/kernel_hook.rs:170-184 | The keys of a clean entry survive the repair if and only if its `linux` and `initrd` lines have values; every field has a value afterwards if and only if every one had. |
| `BlsRepair.BareInitrdLosesItsKey` | crates/atomic-rollback/src/kernel_hook.rs:170-184 | Such an entry, for every kernel version: a kernel path that asks for repair and a bare `initrd` line; it is repaired and loses a key. |
| `BlsRepair.EntryDir.FixBlsPaths` | crates/atomic-rollback/src/kernel_hook.rs:132-210 | Success leaves the fixed text, any error the old text; exactly when each error is given; other entries never change; what is left under the `.new` name. |
| `EspStub.RoundTripExact` | crates/atomic-rollback/src/tools.rs:366-405 | For a hex-and-dash UUID and a one-line directory without `)` and without whitespace at its ends: a rendered stub parses back to itself if and only if it is btrfs-relative or its directory does not itself hold both trigger words. |
| `EspStub.MisleadingDirFails` | crates/atomic-rollback/src/tools.rs:366-405 | A directory with which the round trip fails, for every UUID. |
| `EspStub.NewEspMeansBtrfs` | crates/atomic-rollback/src/migrate.rs:246-296 | Step 9 refuses exactly when the existing stub cannot be read; its own check of the new text never fails, and the text means the btrfs layout. |
| `GateLinks.NewEspAtTheGate` | crates/atomic-rollback/src/migrate.rs:246-296 | With the text of step 9 on the ESP the gate finds both required texts, and from then on checks the default subvolume exactly when the new UUID is a btrfs. |
| `Fstab.DisplayParse` | crates/atomic-rollback/src/tools.rs:28-74 | The written form of a parsed device reference is the text it came from. |
| `Fstab.FstabDecode` | crates/atomic-rollback/src/tools.rs:452-470 | The decoding loop computes the escape-by-escape decoding that the next three rows are about. |
| `Fstab.DecodeEncode` | crates/atomic-rollback/src/tools.rs:452-470 | Decoding the getmntent(3) encoding of any string gives that string. |
| `Fstab.DecodePlain` | crates/atomic-rollback/src/tools.rs:452-470 | Decoding is the identity on text without a backslash. |
| `Fstab.DecodeShrinks` | crates/atomic-rollback/src/tools.rs:452-470 | Decoding never lengthens a field, never empties it and never makes it look like a comment. |
| `Fstab.LineEntry` | crates/atomic-rollback/src/tools.rs:474-500 | A line is an entry exactly when it has four words and the first does not begin with `#`; trimming and word splitting cannot disagree. |
| `Fstab.RootIsProtected` | crates/atomic-rollback/src/snapshot.rs:289-297 | The root subvolume that fstab names is among the names that are never deleted. |
| `FstabRewrite.BootRemoval` | crates/atomic-rollback/src/migrate.rs:187-198 | The entries of the step 5 text are exactly the old ones without the ext4 `/boot` ones, in order, for any fstab. |
| `FstabRewrite.DropIsExact` | crates/atomic-rollback/src/migrate.rs:190-196 | Nothing but ext4 `/boot` entries is dropped, all of them are, and a list without them stays the same. |
| `FstabRewrite.BootRemovalIsIdempotent` | crates/atomic-rollback/src/migrate.rs:187-198 | A second application removes nothing more; no ext4 `/boot` entry is left. |
| `FstabRewrite.OtherOptionsUnchanged` | crates/atomic-rollback/src/migrate.rs:360 | The all-occurrences replacement leaves every option that does not contain `subvol=<root>` unchanged and in its place. |
| `FstabRewrite.VarOptionsNameVar` | crates/atomic-rollback/src/migrate.rs:360 | After the replacement the options name the subvolume `var`. |
| `FstabRewrite.VarSeparationExact` | crates/atomic-rollback/src/migrate.rs:310-366 | The new fstab has exactly the old entries plus one btrfs `/var` entry on the same device if and only if the decoded device text is one word that decodes to itself. |
| `FstabRewrite.PlainDeviceIsRewritable` | crates/atomic-rollback/src/migrate.rs:316-362 | A device field without a backslash meets that condition. |
| `FstabRewrite.EscapedDeviceFails` | crates/atomic-rollback/src/migrate.rs:316-362 | Every correctly escaped device name with a space in it fails it: the written line does not give the intended entry. |
| `FstabRewrite.LabelWithSpaceFails` | crates/atomic-rollback/src/migrate.rs:316-362 | A concrete such fstab: the label `a b`. |
| `FstabRewrite.VarBecomesProtected` | crates/atomic-rollback/src/migrate.rs:357-366 | After the separation `var` joins the names that are never deleted, and the root name is what it was. |
| `SubvolList.LineRoundTrip` | crates/atomic-rollback/src/tools.rs:258-269 | Printing one entry and parsing it gives it back, for all u64 numbers and any path, also one that contains the separators. |
| `SubvolList.ListRoundTrip` | crates/atomic-rollback/src/tools.rs:272-278 | The same for whole lists through trimming and line splitting, for one-line paths that do not end in whitespace. |
| `Migration.ExecInv` | crates/atomic-rollback/src/proof.rs:277-462 | The inductive invariant holds after every sequence of steps, verifications, syncs, kernel installs and rollbacks, in any order. |
| `Migration.AlwaysDataSafe` | crates/atomic-rollback/src/proof.rs:217-224 | Over every run from an initial state, the `/var` configuration is consistent; user data is intact by construction, since as in proof.rs no transition writes those two bits. |
| `Migration.BootsExactly` | crates/atomic-rollback/src/proof.rs:143-212 | Under the invariant, bootability is: GRUB follows the ESP, and an ESP on btrfs meets the GRUB axioms and finds a prepared btrfs. |
| `Migration.BitIsHistory` | crates/atomic-rollback/src/proof.rs:277-385 | Each deciding bit of the state is set exactly when its step has taken effect earlier in the run. |
| `Migration.SafeOrderExact` | crates/atomic-rollback/src/proof.rs:143-462 | For every run and every assignment of the axioms: all states along the run boot if and only if GRUB follows the ESP and each effective ESP switch comes after steps 1, 2, 7 and (if GRUB needs it) 8. |
| `Migration.SafeOrderByPosition` | crates/atomic-rollback/src/proof.rs:143-462 | With all axioms and verified swaps, that is a condition on positions in the event list alone. |
| `Migration.SyncedRunIsRebootSafe` | crates/atomic-rollback/src/proof.rs:413-432 | A run in safe order that ends in a sync is reboot-safe exactly as far as syncfs commits. |
| `Migration.VerifiedMeansArmed` | crates/atomic-rollback/src/proof.rs:440-444 | In every run the verified bit means exactly a verification that no later effective swap has used up. |
| `Migration.SwapsNeedVerification` | crates/atomic-rollback/src/proof.rs:313-462 | No swap takes effect without a verification since the previous one. |
| `Resume.PassResult` | crates/atomic-rollback/src/proof.rs:277-385 | What one full pass of the ten steps, each swap verified first, makes of any state. |
| `Resume.LiveStaysSound` | crates/atomic-rollback/src/proof.rs:217-224 | The invariant, data safety and `/var` consistency hold at every point, also with restarts anywhere. |
| `Resume.ResumeEqualsUninterrupted` | crates/atomic-rollback/src/proof.rs:277-385 | After any migration events in any order with restarts anywhere, one full pass ends in the state a single full pass gives. |
| `Resume.PartialPassesThenFull` | crates/atomic-rollback/src/proof.rs:488-503 | Any number of passes of the ten steps, each swap verified first, each pass cut at any point, then a full one: the state of a single full pass. |
| `PowerLoss.PowerLossExact` | crates/atomic-rollback/src/proof.rs:53-59 | Over every run with restarts, write-back and power losses: no power loss at any point can leave an unbootable machine if and only if GRUB follows the ESP and the preparing steps are committed before every ESP switch. |
| `PowerLoss.UndisciplinedSwitchIsFatal` | crates/atomic-rollback/src/proof.rs:358-370 | From any reachable machine, switching the ESP before the preparing steps are on disk opens a fatal window. |
| `PowerLoss.SyncMakesDurable` | crates/atomic-rollback/src/proof.rs:428-432 | A committing sync at the end of any run: no power loss loses a btrfs change, and none loses anything if and only if the oldest ESP that can be on disk is the current one. |
| `PowerLoss.DurableMeansOnDisk` | crates/atomic-rollback/src/proof.rs:53-59 | In every run, while the durable bit is set the btrfs disk can only hold the current state. |
| `PowerLoss.DurableNeedsEsp` | crates/atomic-rollback/src/proof.rs:53-59 | In every run, while the bit is set: every power loss leaves the current state on both file systems if and only if the oldest ESP that can be on disk is the current one. |
| `PowerLoss.DurableBitMissesEsp` | crates/atomic-rollback/src/proof.rs:428-432 | After a full migration and its sync the bit is set and the old ESP can still be on disk. |
| `PowerLoss.MigrateWithoutCommitCanFail` | crates/atomic-rollback/src/migrate.rs:42-86 | In the order of the migrate command, which syncs only at the end, the switch of the ESP can be lost against an uncommitted btrfs. |
| `PowerLoss.SyncBeforeSwitchSuffices` | crates/atomic-rollback/src/migrate.rs:69-80 | Over every run in which each ESP switch comes after a sync of a prepared btrfs and a verification, no power loss at any point is fatal. |
| `MigrateRun.StepUnchangedExactly` | crates/atomic-rollback/src/migrate.rs:88-395 | For each of the ten steps and each number of its changes made: the whole system is as it was if and only if, before the step, those changes were harmless (already unmounted, linked, set, copied, equal). |
| `MigrateRun.RunStopsAtFirstBad` | crates/atomic-rollback/src/migrate.rs:42-86 | The run stops in the first turn whose step fails, whose new file is unsound or at whose gate the rest of the chain does not hold, with this turn's changes made. |
| `MigrateRun.UnverifiedLiveExactly` | crates/atomic-rollback/src/migrate.rs:42-86 | A file no gate has passed is live at the end if and only if that first bad turn makes its exchange. |
| `MigrateRun.UnsoundLiveExactly` | crates/atomic-rollback/src/migrate.rs:42-86 | What is live at the end breaks the boot chain if and only if the first bad turn exchanges in an unsound file. |
| `MigrateRun.FailureLeavesUnchangedExactly` | crates/atomic-rollback/src/migrate.rs:42-86 | The failing turn leaves the whole system as it was before it if and only if its changes are harmless there; what an exchange took out is kept beside the new file. |
| `MigrateCases.MigrateLeavesUnverified` | crates/atomic-rollback/src/migrate.rs:42-86 | In the ten turns of the command: if and only if the first bad turn is step 5, 6, 7 or 9 run to its end, or step 10 past its exchange. |
| `MigrateCases.BadGrubCfgStaysLive` | crates/atomic-rollback/src/migrate.rs:66-67 | A run in which only the generated grub.cfg is bad: its gate fails and the bad file stays live. |
| `MigrateCases.BootStaysUnmounted` | crates/atomic-rollback/src/migrate.rs:91-109 | A run in which the copy of step 1 fails: /boot stays unmounted. |
| `MigrateCases.DefaultStaysSet` | crates/atomic-rollback/src/migrate.rs:53-54 | A run in which step 3 works and its gate fails: the default subvolume stays set. |
| `MigrateCases.VarSurvivesExactly` | crates/atomic-rollback/src/migrate.rs:298-373 | An existing subvolume named `var` keeps its content through step 10 if and only if /var is a mount point or the step stops before deleting it. |
| `MigrateCases.OldVarIsLost` | crates/atomic-rollback/src/migrate.rs:335-340 | A run that passes all its gates and loses the content of such a subvolume. |
| `AutoName.GeneratedIsAuto` | crates/atomic-rollback/src/snapshot.rs:90-107 | A generated name is recognised as automatic exactly up to the year 9999. |
| `Operations.FstabProtectsRoot` | crates/atomic-rollback/src/tools.rs:511-530 | For every fstab, the configuration the tool reads protects the root it names. |
| `Operations.Namespace.Delete` | crates/atomic-rollback/src/snapshot.rs:227-238 | Exactly when it succeeds, what it removes, and which error each refusal gives; any failure leaves the disk as it was. |
| `Operations.Namespace.EvictFront` | crates/atomic-rollback/src/snapshot.rs:79-85 | The loop of deletions that may fail leaves exactly the declaratively retained disk. |
| `Operations.Namespace.Retain` | crates/atomic-rollback/src/snapshot.rs:54-86 | Filter, sort and delete, for every order in which the subvolumes are listed, means: those with at least max younger ones go, unless their deletion fails. |
| `Operations.Namespace.Snapshot` | crates/atomic-rollback/src/snapshot.rs:120-159 | The new disk in every case; exactly when it reports a created one, an existing one, a reserved name, no btrfs or a failed creation. A failed lookup after creation is an error although the snapshot exists. |
| `Operations.Namespace.Rollback` | crates/atomic-rollback/src/rollback.rs:12-97 | The new disk in every case, including undo; exactly when it succeeds and exactly when each error is given. A failed sync is an error after a completed rollback. |
| `GatedRollback.Rollback` | crates/atomic-rollback/src/rollback.rs:28-52 | With the gate's own verdict on the snapshot: names and default change only if the snapshot's declarative boot chain holds; a snapshot without its own grub.cfg is refused. |
| `Retention.PrintedListing` | crates/atomic-rollback/src/tools.rs:272-278 | What the tool reads from the printed listing of a disk is a listing of that disk. |
| `Retention.LineUp` | crates/atomic-rollback/src/snapshot.rs:67-76 | Filtering and sorting any listing lines up exactly the unprotected automatic snapshots, oldest first. |
| `Retention.FrontOfLine` | crates/atomic-rollback/src/snapshot.rs:72-80 | The first n - max in line are exactly those with at least max younger ones. |
| `Retention.RetentionExact` | crates/atomic-rollback/src/snapshot.rs:54-86 | With every deletion succeeding, the min(n, max) automatic snapshots with the highest ids are left. |
| `Retention.RetentionPartial` | crates/atomic-rollback/src/snapshot.rs:79-85 | Whatever deletions fail, at most n - max go, and each is older than every one that was to be kept. |
| `Rollbacks.AllOrNothing` | crates/atomic-rollback/src/rollback.rs:56-96 | Either exactly the two bindings are exchanged with the default at the new root, or nothing changed: this holds if and only if no failed undo leaves two different nodes exchanged. |
| `Rollbacks.FailedUndoBreaks` | crates/atomic-rollback/src/rollback.rs:77-85 | With any two subvolumes: a failed set-default and a failed undo leave a disk that is neither. |
| `Rollbacks.DefaultFollowsRoot` | crates/atomic-rollback/src/rollback.rs:61-86 | The default id stays the id of the root name if and only if the rollback does not end in a failed undo (or exchanges root with itself). |
| `Rollbacks.RollbackConserves` | crates/atomic-rollback/src/rollback.rs:56-96 | Whatever fails, the names, the set of ids, the contents and the counter are conserved. |
| `Rollbacks.RollbackTwice` | crates/atomic-rollback/src/rollback.rs:56-96 | Rolling back twice to one name is the identity, default included. |
| `Rollbacks.ChainPermutes` | crates/atomic-rollback/src/rollback.rs:56-96 | After any chain of rollbacks each name holds the node of its origin. |
| `Rollbacks.OriginAndDestination` | crates/atomic-rollback/src/rollback.rs:56-58 | Origin and destination under a chain are inverse to each other, so a chain is a permutation. |
| `Rollbacks.ChainEndsAtRoot` | crates/atomic-rollback/src/rollback.rs:56-86 | After a chain the last target is at root and is the default. |
| `NamespaceRuns.NamespaceInvariant` | crates/atomic-rollback/src/snapshot.rs:120-238 | For every fstab and every run of snapshots, deletions, rollbacks, writes and reboots: ids have one name and are never reused, fstab names stay bound, a user's name goes only by its deletion, and the default stays the root while undo works. |
| `NamespaceRuns.RunNeverReuses` | crates/atomic-rollback/src/snapshot.rs:139-146 | Ids present after a run were present before or were given out since. |
| `NamespaceRuns.RunStaysBound` | crates/atomic-rollback/src/snapshot.rs:227-233 | Fstab-named subvolumes, and user-named ones nobody deletes, stay bound through every run. |
| `NamespaceRuns.RunKeepsDefault` | crates/atomic-rollback/src/rollback.rs:60-86 | The default follows the root through every run in which undo works. |
| `Snapshots.CreatedHolds` | crates/atomic-rollback/src/snapshot.rs:139-152 | A new snapshot survives its own retention and holds what root holds, under an id never used before. |
| `Snapshots.RunHolds` | crates/atomic-rollback/src/snapshot.rs:120-238 | Through every run without a rollback to it, a snapshot keeps its content or is gone for good. |
| `Snapshots.UserSnapshotStays` | crates/atomic-rollback/src/snapshot.rs:54-86 | Under a user's name it is never gone unless the user deletes it. |
| `Snapshots.RollbackRestores` | crates/atomic-rollback/src/rollback.rs:12-97 | Take a snapshot, let anything happen but a rollback to it, roll back to it: root holds what it held when the snapshot was taken. |
| `OldRoot.OldRootEvicted` | crates/atomic-rollback/src/snapshot.rs:54-86 | Roll back to an automatic snapshot, reboot, take the next automatic snapshot: the old root, whatever its id, stays if and only if fewer than max automatic snapshots are younger, the new one included; otherwise its content is gone. |
| `OldRoot.OldRootGoesFirst` | crates/atomic-rollback/src/snapshot.rs:54-86 | With the lowest id it is lost as soon as there are max automatic snapshots before the new one. |
| `OldRoot.OldRootIsLost` | crates/atomic-rollback/src/snapshot.rs:54-86 | A run in which it is lost: two subvolumes, a limit of one, everything succeeding. |
| `Snapshots.LimitHolds` | crates/atomic-rollback/src/snapshot.rs:139-152 | Over every run in which the deletions succeed and every rollback can be undone, from any disk: never more automatic snapshots than at the start or the limit, and from the first new one on never more than the limit. |
| `Resolve.ResolveExact` | crates/atomic-rollback/src/snapshot.rs:199-212 | In any listing order, a numeric argument means the subvolume with that id, any other the one with that name, and nothing else. |
| `Resolve.OwnNameResolves` | crates/atomic-rollback/src/snapshot.rs:199-212 | A subvolume is found under its own name if and only if that name is not a number, or is its own id. |
| `Resolve.MostRecentIsHighest` | crates/atomic-rollback/src/snapshot.rs:215-223 | The most recent one is the unprotected entry with the highest id; none exactly when all are protected. |
| `Resolve.CreatedIsMostRecent` | crates/atomic-rollback/src/snapshot.rs:215-223 | Right after a snapshot is created it is the most recent one, whatever retention did. |
| `Gate.EvaluateChecks` | crates/atomic-rollback/src/check.rs:28-54 | Fails exactly when some check failed, warns exactly when none did and a group is empty. |
| `Gate.CheckDefaultSubvol` | crates/atomic-rollback/src/check.rs:209-241 | True exactly when the default id is the id under which the root name of fstab is first listed, all of it being known. |
| `Gate.CheckGrubConfig` | crates/atomic-rollback/src/check.rs:182-207 | Passes exactly when grub.cfg is a BLS configuration and, on a btrfs-relative boot, the default is the root. |
| `Gate.ValidateBlsEntry` | crates/atomic-rollback/src/check.rs:307-352 | True exactly when the kernel, every initrd token that is no GRUB variable, and a root parameter are there. |
| `Gate.CheckBlsEntries` | crates/atomic-rollback/src/check.rs:245-302 | Passes exactly when some entry is valid; is empty exactly when one is valid and another is not. |
| `Gate.ExtractRootUuid` | crates/atomic-rollback/src/check.rs:524-535 | The UUID in the first entry that has options; none if an unreadable entry comes before it. |
| `Gate.CheckRootMountable` | crates/atomic-rollback/src/check.rs:356-405 | Passes exactly when that UUID is a btrfs with the root subvolume of fstab, and systemd is there. |
| `Gate.CheckFstabMounts` | crates/atomic-rollback/src/check.rs:409-427 | Passes exactly when every required fstab entry resolves with its subvolume; is empty exactly when none is required. |
| `Gate.VerifyBootable` | crates/atomic-rollback/src/check.rs:56-76 | The verdict means exactly the chain: no failure if and only if every link holds, a warning if and only if besides an entry is broken or no mount is required, inaccessible if and only if reading the ESP is denied. |
| `Gate.VerifySnapshotBootable` | crates/atomic-rollback/src/check.rs:80-111 | The same for a snapshot, with GRUB paths under the snapshot, without the ESP files and the default subvolume. A snapshot without its own grub.cfg is refused. |
| `GateLinks.RepairedEntryBoots` | crates/atomic-rollback/src/kernel_hook.rs:147-184 | For every clean entry: the repaired one is valid at the gate if and only if this kernel and its initramfs exist and the old entry gave its three fields a value and a root parameter. |
| `GateLinks.SeparatedFstabAtTheGate` | crates/atomic-rollback/src/migrate.rs:357-366 | After step 10 the fstab passes the gate if and only if the old entries do and, unless the options hold `nofail`, the device resolves and has a subvolume `var`. |
| `GateLinks.CleanedFstabAtTheGate` | crates/atomic-rollback/src/migrate.rs:187-198 | After step 5 the fstab passes the gate if and only if every required entry that is not an ext4 `/boot` one mounts. |

## Left out

- Bls.ParsersAgree: texts with in-line whitespace other than space and tab are excluded, since there the two parsers do split differently; values of fields without a value are compared as missing.
- BlsRepair.RepairIsLens: stated for kernel versions without `/` or whitespace and for texts as in Bls.ParsersAgree.
- SubvolList.ListRoundTrip: paths that end in whitespace are excluded, because the command's output is trimmed before it is split.
- Operations.Namespace.List: the loop stands for the subvolume listing command; only that it lists every subvolume once, in some order, is used.
- Machine integers: indices and counters are unbounded; u64 and i32 bounds are kept where text is parsed. Overflow of lengths cannot be observed in the model.
- Unicode whitespace, and text that is not valid UTF-8.
- Running `mount`, `findmnt`, `blkid`, `dracut`, `grub2-mkconfig`, `rsync`, `btrfs`, `syncfs` and `renameat2`: their answers are parameters, an exchange is one atomic step or an error, and the two directory writes of an exchange on vfat are one step.
- The probe mount that is removed when its owner is dropped, and cleaning up the temporary mount point.
- Nested subvolumes, snapshot names that are not a single path component, and changes to fstab during a run of the namespace; a plain file or directory at the top level is a node without an id.
- Failures of the fstab or listing read before a single deletion during retention are folded into the set of ids whose deletion fails.
- Writes by programs reach only the mounted root subvolume; btrfs refuses to delete the mounted and the default subvolume, as the repository's README.md:56 says.
- MigrateRun: the command is modelled on values, a list of turns, because it is a straight line of calls. What a step writes is a version and whether the boot chain holds with it; a failed unmount of /boot/efi is not told from none, and a root subvolume named `var` is excluded.
- What the boot files, the initramfs, grub.cfg and grubenv contain, and the setup command.
- The gate's messages and the number of failures: a check is passed or failed.
- The kernel hook's handling of added and removed kernels (symlinks, dispatch), apart from the repair of the boot entry.
- Legacy snapshot renaming, the configuration file, the list command's creation times, printing, the command line, the RPM plugin, packaging and the changelog generator.
- The aarch64 file suffix: the suffix is the x86_64 one.
