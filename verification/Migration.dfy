/**
 The migration and rollback state machine: states, axioms about the boot chain, the
 bootability predicate, and each operation as a pure transition. Subvolume ids are unbounded.
 A run is any sequence of events, in any order, with any swap attempted verified or not.
 */
module Migration {
  import opened Wrappers

  datatype Uuid = Ext4 | Btrfs

  datatype DeviceRef = ByUuid | DevPath | Label | PartUuid | PartLabel | Id

  datatype Compression = Zstd | Lzo | NoCompression | Inherited

  type SubvolId = nat

  /** The ESP grub.cfg: which file system it points to and how. */
  datatype Esp = Esp(targetUuid: Uuid, hasBtrfsRelative: bool, prefixHasBoot: bool)

  /** What the boot chain finds on ext4 and on btrfs. */
  datatype BootFiles = BootFiles(
    grubCfgOnExt4: bool, grubCfgOnBtrfs: bool, kernelOnBtrfs: bool, kernelOnExt4: bool,
    symlinksExist: bool, initramfsCurrent: bool, grubCfgCurrent: bool, grubenvNocow: bool)

  /** What fstab says, and whether /var is its own subvolume. */
  datatype Layout = Layout(
    fstabHasExt4Boot: bool, fstabHasVarMount: bool, varIsSubvol: bool,
    rootDeviceRef: DeviceRef, rootCompression: Compression,
    varDeviceRef: DeviceRef, varCompression: Compression)

  datatype Subvols = Subvols(
    default: SubvolId, root: SubvolId, homeIntact: bool, varIntact: bool, oldRootPreserved: bool)

  /** State of the running system and of the tool, gone after a restart. */
  datatype Runtime = Runtime(ext4BootMounted: bool, artifactVerified: bool, durable: bool)

  datatype SystemState = SystemState(esp: Esp, boot: BootFiles, layout: Layout, subvols: Subvols, runtime: Runtime)

  /** Interface assumptions about GRUB, the kernel, systemd and the two file systems. */
  datatype Axioms = Axioms(
    grubFollowsEspUuid: bool,
    grubResolvesFromDefaultSubvol: bool,
    grubPrefixDeterminesConfig: bool,
    grubFollowsBtrfsSymlinks: bool,
    grubLoadenvRequiresNocow: bool,
    grubSkipsConfigVerification: bool,
    renameExchangeAtomicBtrfs: bool,
    renameExchangeSafeVfat: bool,
    syncfsCommitsTransaction: bool,
    kernelSubvolOverridesDefault: bool,
    systemdFstabFatal: bool,
    kernelInstallDispatchesHooks: bool)

  predicate Boots(s: SystemState, ax: Axioms) {
    var espFindsGrubCfg :=
      ax.grubFollowsEspUuid
      && match s.esp.targetUuid { case Ext4 => s.boot.grubCfgOnExt4 case Btrfs => s.boot.grubCfgOnBtrfs };
    var grubFindsKernel :=
      match s.esp.targetUuid
      case Ext4 => s.boot.kernelOnExt4
      case Btrfs =>
        var defaultOk :=
          ax.grubResolvesFromDefaultSubvol && s.esp.hasBtrfsRelative && s.subvols.default == s.subvols.root;
        var prefixOk := ax.grubPrefixDeterminesConfig && s.esp.prefixHasBoot;
        var symlinksOk := ax.grubFollowsBtrfsSymlinks && s.boot.symlinksExist;
        defaultOk && prefixOk && symlinksOk && s.boot.kernelOnBtrfs;
    var securebootOk := ax.grubSkipsConfigVerification || s.esp.targetUuid == Ext4;
    var kernelMountsRoot := ax.kernelSubvolOverridesDefault || s.subvols.default == s.subvols.root;
    var fstabValid :=
      ax.systemdFstabFatal && s.layout.fstabHasVarMount ==>
        s.layout.varIsSubvol && s.layout.varDeviceRef == s.layout.rootDeviceRef;
    var grubenvValid := ax.grubLoadenvRequiresNocow ==> s.esp.targetUuid == Ext4 || s.boot.grubenvNocow;
    espFindsGrubCfg && grubFindsKernel && securebootOk && kernelMountsRoot && fstabValid && grubenvValid
  }

  predicate VarConfigConsistent(s: SystemState) {
    s.layout.fstabHasVarMount ==>
      s.layout.varDeviceRef == s.layout.rootDeviceRef && s.layout.varCompression == s.layout.rootCompression
  }

  predicate DataSafe(s: SystemState) {
    s.subvols.homeIntact && s.subvols.varIntact
  }

  predicate RebootSafe(s: SystemState, ax: Axioms) {
    Boots(s, ax) && s.runtime.durable
  }

  /** The stock layout, over what varies between installations. */
  function InitialState(espHasBtrfsRelative: bool, varSeparated: bool, rootDeviceRef: DeviceRef,
                        rootCompression: Compression, root: SubvolId): SystemState {
    SystemState(
      Esp(Ext4, espHasBtrfsRelative, false),
      BootFiles(grubCfgOnExt4 := true, grubCfgOnBtrfs := false, kernelOnBtrfs := false, kernelOnExt4 := true,
                symlinksExist := false, initramfsCurrent := true, grubCfgCurrent := true, grubenvNocow := false),
      Layout(fstabHasExt4Boot := true, fstabHasVarMount := varSeparated, varIsSubvol := varSeparated,
             rootDeviceRef := rootDeviceRef, rootCompression := rootCompression,
             varDeviceRef := rootDeviceRef, varCompression := rootCompression),
      Subvols(default := root, root := root, homeIntact := true, varIntact := true, oldRootPreserved := false),
      Runtime(ext4BootMounted := true, artifactVerified := false, durable := true))
  }

  ghost predicate Initial(s: SystemState) {
    exists e, v, d, c, r :: s == InitialState(e, v, d, c, r)
  }

  // --- transitions ---

  /** A btrfs or vfat change that is not yet on disk. */
  function Pending(r: Runtime): Runtime {
    r.(durable := false)
  }

  /** A swap uses up the verification. */
  function Swapped(r: Runtime): Runtime {
    r.(artifactVerified := false, durable := false)
  }

  function Step1CopyBoot(s: SystemState): SystemState {
    s.(boot := s.boot.(kernelOnBtrfs := true), runtime := Pending(s.runtime))
  }

  function Step2CreateSymlinks(s: SystemState): SystemState {
    s.(boot := s.boot.(symlinksExist := true), runtime := Pending(s.runtime))
  }

  function Step3SetDefaultSubvol(s: SystemState): SystemState {
    s.(subvols := s.subvols.(default := s.subvols.root), runtime := Pending(s.runtime))
  }

  function Step4SwitchBoot(s: SystemState): SystemState {
    s.(runtime := s.runtime.(ext4BootMounted := false))
  }

  function Step5UpdateFstab(s: SystemState, ax: Axioms): Option<SystemState> {
    if !s.runtime.artifactVerified || !ax.renameExchangeAtomicBtrfs then None
    else Some(s.(layout := s.layout.(fstabHasExt4Boot := false), runtime := Swapped(s.runtime)))
  }

  function Step6RebuildInitramfs(s: SystemState, ax: Axioms): Option<SystemState> {
    if !s.runtime.artifactVerified || !ax.renameExchangeAtomicBtrfs then None
    else Some(s.(boot := s.boot.(initramfsCurrent := true), runtime := Swapped(s.runtime)))
  }

  function Step7RegenGrubCfg(s: SystemState, ax: Axioms): Option<SystemState> {
    if !s.runtime.artifactVerified || !ax.renameExchangeAtomicBtrfs then None
    else Some(s.(boot := s.boot.(grubCfgOnBtrfs := true, grubCfgCurrent := true), runtime := Swapped(s.runtime)))
  }

  function Step8FixGrubenv(s: SystemState): SystemState {
    s.(boot := s.boot.(grubenvNocow := true), runtime := Pending(s.runtime))
  }

  function Step9UpdateEsp(s: SystemState, ax: Axioms): Option<SystemState> {
    if !s.runtime.artifactVerified || !ax.renameExchangeSafeVfat then None
    else Some(s.(esp := Esp(Btrfs, true, true), runtime := Swapped(s.runtime)))
  }

  function Step10SeparateVar(s: SystemState, ax: Axioms): Option<SystemState> {
    if !s.runtime.artifactVerified || !ax.renameExchangeAtomicBtrfs then None
    else Some(s.(layout := SeparatedVar(s.layout), runtime := Swapped(s.runtime)))
  }

  function SeparatedVar(l: Layout): Layout {
    if l.varIsSubvol then l
    else l.(varIsSubvol := true, fstabHasVarMount := true,
            varDeviceRef := l.rootDeviceRef, varCompression := l.rootCompression)
  }

  function KernelInstall(s: SystemState, ax: Axioms): Option<SystemState> {
    if !s.runtime.artifactVerified || !ax.renameExchangeAtomicBtrfs || !ax.kernelInstallDispatchesHooks then None
    else Some(s.(runtime := Swapped(s.runtime)))
  }

  function Rollback(s: SystemState, snapshot: SubvolId, ax: Axioms): Option<SystemState> {
    if !s.runtime.artifactVerified || !ax.renameExchangeAtomicBtrfs then None
    else Some(s.(subvols := s.subvols.(root := snapshot, default := snapshot, oldRootPreserved := true),
                 runtime := Swapped(s.runtime)))
  }

  function SyncFilesystem(s: SystemState, ax: Axioms): SystemState {
    s.(runtime := s.runtime.(durable := ax.syncfsCommitsTransaction))
  }

  function VerifyArtifact(s: SystemState): SystemState {
    s.(runtime := s.runtime.(artifactVerified := true))
  }

  // --- runs ---

  datatype Event =
    | CopyBoot | CreateSymlinks | SetDefaultSubvol | SwitchBoot | UpdateFstab
    | RebuildInitramfs | RegenGrubCfg | FixGrubenv | UpdateEsp | SeparateVar
    | InstallKernel | RollBack(snapshot: SubvolId) | Sync | Verify

  /** What an event does; None when the tool refuses it. */
  function Effect(s: SystemState, e: Event, ax: Axioms): Option<SystemState> {
    match e
    case CopyBoot => Some(Step1CopyBoot(s))
    case CreateSymlinks => Some(Step2CreateSymlinks(s))
    case SetDefaultSubvol => Some(Step3SetDefaultSubvol(s))
    case SwitchBoot => Some(Step4SwitchBoot(s))
    case UpdateFstab => Step5UpdateFstab(s, ax)
    case RebuildInitramfs => Step6RebuildInitramfs(s, ax)
    case RegenGrubCfg => Step7RegenGrubCfg(s, ax)
    case FixGrubenv => Some(Step8FixGrubenv(s))
    case UpdateEsp => Step9UpdateEsp(s, ax)
    case SeparateVar => Step10SeparateVar(s, ax)
    case InstallKernel => KernelInstall(s, ax)
    case RollBack(id) => Rollback(s, id, ax)
    case Sync => Some(SyncFilesystem(s, ax))
    case Verify => Some(VerifyArtifact(s))
  }

  /** A refused event leaves the system as it was. */
  function Next(s: SystemState, e: Event, ax: Axioms): SystemState {
    match Effect(s, e, ax) case Some(t) => t case None => s
  }

  function Exec(s: SystemState, run: seq<Event>, ax: Axioms): SystemState {
    if run == [] then s else Next(Exec(s, run[..|run| - 1], ax), run[|run| - 1], ax)
  }

  /** Event number k of the run is e and the tool did not refuse it. */
  predicate FiresAt(s: SystemState, run: seq<Event>, k: nat, e: Event, ax: Axioms) {
    k < |run| && run[k] == e && Effect(Exec(s, run[..k], ax), e, ax).Some?
  }

  ghost predicate Fired(s: SystemState, run: seq<Event>, e: Event, ax: Axioms) {
    exists k: nat :: FiresAt(s, run, k, e, ax)
  }

  /** Every switch of the ESP comes after the four steps it depends on. */
  ghost predicate SafeOrder(s: SystemState, run: seq<Event>, ax: Axioms) {
    forall k: nat :: FiresAt(s, run, k, UpdateEsp, ax) ==>
      && BtrfsBootAxioms(ax)
      && Fired(s, run[..k], CopyBoot, ax)
      && Fired(s, run[..k], CreateSymlinks, ax)
      && Fired(s, run[..k], RegenGrubCfg, ax)
      && (ax.grubLoadenvRequiresNocow ==> Fired(s, run[..k], FixGrubenv, ax))
  }

  /** What booting from btrfs asks of GRUB. */
  predicate BtrfsBootAxioms(ax: Axioms) {
    ax.grubResolvesFromDefaultSubvol && ax.grubPrefixDeterminesConfig
    && ax.grubFollowsBtrfsSymlinks && ax.grubSkipsConfigVerification
  }

  // --- the inductive invariant ---

  ghost predicate Inv(s: SystemState) {
    && s.boot.grubCfgOnExt4 && s.boot.kernelOnExt4
    && s.subvols.default == s.subvols.root
    && (s.layout.fstabHasVarMount ==> s.layout.varIsSubvol)
    && VarConfigConsistent(s) && DataSafe(s)
    && (s.esp.targetUuid == Btrfs ==> s.esp.hasBtrfsRelative && s.esp.prefixHasBoot)
  }

  lemma InitialInv(s: SystemState)
    requires Initial(s)
    ensures Inv(s)
  {
  }

  lemma NextInv(s: SystemState, e: Event, ax: Axioms)
    requires Inv(s)
    ensures Inv(Next(s, e, ax))
  {
  }

  lemma {:induction false} ExecInv(s: SystemState, run: seq<Event>, ax: Axioms)
    requires Inv(s)
    ensures Inv(Exec(s, run, ax))
  {
    if run != [] {
      ExecInv(s, run[..|run| - 1], ax);
      NextInv(Exec(s, run[..|run| - 1], ax), run[|run| - 1], ax);
    }
  }

  /** Over every run: user data and the /var configuration stay sound. */
  lemma {:induction false} AlwaysDataSafe(s: SystemState, run: seq<Event>, ax: Axioms)
    requires Initial(s)
    ensures DataSafe(Exec(s, run, ax)) && VarConfigConsistent(Exec(s, run, ax))
  {
    InitialInv(s);
    ExecInv(s, run, ax);
  }

  // --- which steps a state has seen ---

  /** The bits of the state that only the four preparing steps set. */
  ghost predicate Prepared(s: SystemState, ax: Axioms) {
    && s.boot.kernelOnBtrfs && s.boot.symlinksExist && s.boot.grubCfgOnBtrfs
    && (ax.grubLoadenvRequiresNocow ==> s.boot.grubenvNocow)
  }

  /** Under the invariant a state boots from ext4, or from a prepared btrfs. */
  lemma BootsExactly(s: SystemState, ax: Axioms)
    requires Inv(s)
    ensures Boots(s, ax)
       <==> ax.grubFollowsEspUuid && (s.esp.targetUuid == Btrfs ==> BtrfsBootAxioms(ax) && Prepared(s, ax))
  {
  }

  /** Firing is decided at the last event or before it. */
  lemma FiredSnoc(s: SystemState, run: seq<Event>, e: Event, ax: Axioms)
    requires run != []
    ensures Fired(s, run, e, ax)
       <==> Fired(s, run[..|run| - 1], e, ax) || FiresAt(s, run, |run| - 1, e, ax)
  {
    var init := run[..|run| - 1];
    forall k: nat | k < |init|
      ensures FiresAt(s, run, k, e, ax) <==> FiresAt(s, init, k, e, ax)
    {
      assert init[..k] == run[..k];
    }
    if Fired(s, init, e, ax) {
      var k: nat :| FiresAt(s, init, k, e, ax);
      assert FiresAt(s, run, k, e, ax);
    }
    if Fired(s, run, e, ax) && !FiresAt(s, run, |run| - 1, e, ax) {
      var k: nat :| FiresAt(s, run, k, e, ax);
      assert k < |init|;
      assert FiresAt(s, init, k, e, ax);
    }
  }

  /** The steps that decide bootability, each with the state bit that remembers it. */
  predicate IsDeciding(e: Event) {
    e.CopyBoot? || e.CreateSymlinks? || e.RegenGrubCfg? || e.FixGrubenv? || e.UpdateEsp?
  }

  predicate Bit(t: SystemState, e: Event)
    requires IsDeciding(e)
  {
    match e
    case CopyBoot => t.boot.kernelOnBtrfs
    case CreateSymlinks => t.boot.symlinksExist
    case RegenGrubCfg => t.boot.grubCfgOnBtrfs
    case FixGrubenv => t.boot.grubenvNocow
    case UpdateEsp => t.esp.targetUuid == Btrfs
  }

  lemma NextBit(s: SystemState, last: Event, e: Event, ax: Axioms)
    requires IsDeciding(e)
    ensures Bit(Next(s, last, ax), e) <==> Bit(s, e) || (last == e && Effect(s, e, ax).Some?)
  {
  }

  /** The state records exactly which of the deciding steps have taken effect. */
  lemma {:induction false} BitIsHistory(s: SystemState, run: seq<Event>, e: Event, ax: Axioms)
    requires Initial(s) && IsDeciding(e)
    ensures Bit(Exec(s, run, ax), e) <==> Fired(s, run, e, ax)
  {
    if run == [] {
      assert !Bit(s, e);
    } else {
      var init := run[..|run| - 1];
      BitIsHistory(s, init, e, ax);
      FiredSnoc(s, run, e, ax);
      NextBit(Exec(s, init, ax), run[|run| - 1], e, ax);
    }
  }

  lemma BitsAreHistory(s: SystemState, run: seq<Event>, ax: Axioms)
    requires Initial(s)
    ensures forall e :: IsDeciding(e) ==> (Bit(Exec(s, run, ax), e) <==> Fired(s, run, e, ax))
  {
    forall e | IsDeciding(e)
      ensures Bit(Exec(s, run, ax), e) <==> Fired(s, run, e, ax)
    {
      BitIsHistory(s, run, e, ax);
    }
  }

  lemma DecidingBits(t: SystemState)
    ensures Bit(t, CopyBoot) == t.boot.kernelOnBtrfs && Bit(t, CreateSymlinks) == t.boot.symlinksExist
    ensures Bit(t, RegenGrubCfg) == t.boot.grubCfgOnBtrfs && Bit(t, FixGrubenv) == t.boot.grubenvNocow
    ensures Bit(t, UpdateEsp) == (t.esp.targetUuid == Btrfs)
  {
  }

  lemma FiredEarlier(s: SystemState, run: seq<Event>, k: nat, n: nat, e: Event, ax: Axioms)
    requires k <= n <= |run| && Fired(s, run[..k], e, ax)
    ensures Fired(s, run[..n], e, ax)
  {
    var i: nat :| FiresAt(s, run[..k], i, e, ax);
    assert run[..k][..i] == run[..i] == run[..n][..i];
    assert FiresAt(s, run[..n], i, e, ax);
  }

  /** The state right after an ESP switch boots just when the steps before it prepared btrfs. */
  lemma SwitchBoots(s: SystemState, run: seq<Event>, k: nat, ax: Axioms)
    requires Initial(s) && FiresAt(s, run, k, UpdateEsp, ax) && ax.grubFollowsEspUuid
    ensures Boots(Exec(s, run[..k + 1], ax), ax)
       <==> && BtrfsBootAxioms(ax)
            && Fired(s, run[..k], CopyBoot, ax)
            && Fired(s, run[..k], CreateSymlinks, ax)
            && Fired(s, run[..k], RegenGrubCfg, ax)
            && (ax.grubLoadenvRequiresNocow ==> Fired(s, run[..k], FixGrubenv, ax))
  {
    InitialInv(s);
    ExecInv(s, run[..k], ax);
    BitsAreHistory(s, run[..k], ax);
    DecidingBits(Exec(s, run[..k], ax));
    var before := Exec(s, run[..k], ax);
    assert run[..k + 1][..k] == run[..k];
    assert Exec(s, run[..k + 1], ax) == Next(before, UpdateEsp, ax);
    NextInv(before, UpdateEsp, ax);
    BootsExactly(Next(before, UpdateEsp, ax), ax);
  }

  /** A safe order boots at every point. */
  lemma SafeOrderBoots(s: SystemState, run: seq<Event>, n: nat, ax: Axioms)
    requires Initial(s) && n <= |run| && ax.grubFollowsEspUuid && SafeOrder(s, run, ax)
    ensures Boots(Exec(s, run[..n], ax), ax)
  {
    InitialInv(s);
    ExecInv(s, run[..n], ax);
    BitsAreHistory(s, run[..n], ax);
    DecidingBits(Exec(s, run[..n], ax));
    BootsExactly(Exec(s, run[..n], ax), ax);
    if Fired(s, run[..n], UpdateEsp, ax) {
      var k: nat :| FiresAt(s, run[..n], k, UpdateEsp, ax);
      assert run[..n][..k] == run[..k];
      assert FiresAt(s, run, k, UpdateEsp, ax);
      FiredEarlier(s, run, k, n, CopyBoot, ax);
      FiredEarlier(s, run, k, n, CreateSymlinks, ax);
      FiredEarlier(s, run, k, n, RegenGrubCfg, ax);
      if ax.grubLoadenvRequiresNocow {
        FiredEarlier(s, run, k, n, FixGrubenv, ax);
      }
    }
  }

  /**
   The exact safe-order theorem, for all axiom assignments: the system boots at every point of a
   run if and only if GRUB follows the ESP and every effective ESP switch comes after the
   effective boot copy, symlink, grub.cfg and (when GRUB needs it) grubenv steps.
   */
  lemma SafeOrderExact(s: SystemState, run: seq<Event>, ax: Axioms)
    requires Initial(s)
    ensures (forall n :: 0 <= n <= |run| ==> Boots(Exec(s, run[..n], ax), ax))
       <==> ax.grubFollowsEspUuid && SafeOrder(s, run, ax)
  {
    if forall n :: 0 <= n <= |run| ==> Boots(Exec(s, run[..n], ax), ax) {
      assert Boots(Exec(s, run[..0], ax), ax);
      forall k: nat | FiresAt(s, run, k, UpdateEsp, ax)
        ensures && BtrfsBootAxioms(ax)
                && Fired(s, run[..k], CopyBoot, ax)
                && Fired(s, run[..k], CreateSymlinks, ax)
                && Fired(s, run[..k], RegenGrubCfg, ax)
                && (ax.grubLoadenvRequiresNocow ==> Fired(s, run[..k], FixGrubenv, ax))
      {
        SwitchBoots(s, run, k, ax);
        assert Boots(Exec(s, run[..k + 1], ax), ax);
      }
    }
    if ax.grubFollowsEspUuid && SafeOrder(s, run, ax) {
      forall n | 0 <= n <= |run|
        ensures Boots(Exec(s, run[..n], ax), ax)
      {
        SafeOrderBoots(s, run, n, ax);
      }
    }
  }

  /** Reboot safety needs the sync: a safe run that ends in one is durable as far as syncfs is. */
  lemma SyncedRunIsRebootSafe(s: SystemState, run: seq<Event>, ax: Axioms)
    requires Initial(s) && ax.grubFollowsEspUuid && SafeOrder(s, run + [Sync], ax)
    ensures RebootSafe(Exec(s, run + [Sync], ax), ax) <==> ax.syncfsCommitsTransaction
  {
    var all := run + [Sync];
    assert all[..|all|] == all && all[..|all| - 1] == run;
    SafeOrderBoots(s, all, |all|, ax);
  }

  // --- swaps need verification ---

  predicate IsSwap(e: Event) {
    e.UpdateFstab? || e.RebuildInitramfs? || e.RegenGrubCfg? || e.UpdateEsp?
    || e.SeparateVar? || e.InstallKernel? || e.RollBack?
  }

  /** Some Verify lies after the last swap that took effect. */
  ghost predicate Armed(s: SystemState, run: seq<Event>, ax: Axioms) {
    exists i: nat :: ArmedAt(s, run, i, ax)
  }

  lemma NextVerified(s: SystemState, e: Event, ax: Axioms)
    ensures Next(s, e, ax).runtime.artifactVerified
       <==> e == Verify || (s.runtime.artifactVerified && !(IsSwap(e) && Effect(s, e, ax).Some?))
  {
  }

  /** Event i verifies and no swap takes effect after it. */
  ghost predicate ArmedAt(s: SystemState, run: seq<Event>, i: nat, ax: Axioms) {
    i < |run| && run[i] == Verify
    && forall k: nat :: i < k < |run| ==> !SwapAt(s, run, k, ax)
  }

  lemma FiresInPrefix(s: SystemState, run: seq<Event>, n: nat, k: nat, e: Event, ax: Axioms)
    requires k < n <= |run|
    ensures FiresAt(s, run[..n], k, e, ax) == FiresAt(s, run, k, e, ax)
  {
    assert run[..n][..k] == run[..k];
  }

  lemma ArmedAtSnoc(s: SystemState, run: seq<Event>, i: nat, ax: Axioms)
    requires i < |run| - 1
    ensures ArmedAt(s, run, i, ax)
       <==> ArmedAt(s, run[..|run| - 1], i, ax) && !SwapAt(s, run, |run| - 1, ax)
  {
    var n := |run| - 1;
    forall k: nat | k < n
      ensures run[..n][k] == run[k] && SwapAt(s, run[..n], k, ax) == SwapAt(s, run, k, ax)
    {
      FiresInPrefix(s, run, n, k, run[k], ax);
    }
    if ArmedAt(s, run, i, ax) {
      assert ArmedAt(s, run[..n], i, ax);
    }
    if ArmedAt(s, run[..n], i, ax) && !SwapAt(s, run, n, ax) {
      assert ArmedAt(s, run, i, ax);
    }
  }

  /** Event k is a swap that takes effect. */
  ghost predicate SwapAt(s: SystemState, run: seq<Event>, k: nat, ax: Axioms)
    requires k < |run|
  {
    IsSwap(run[k]) && FiresAt(s, run, k, run[k], ax)
  }

  lemma ArmedSnoc(s: SystemState, run: seq<Event>, ax: Axioms)
    requires run != []
    ensures Armed(s, run, ax) <==>
      var n := |run| - 1;
      run[n] == Verify || (Armed(s, run[..n], ax) && !SwapAt(s, run, n, ax))
  {
    var n := |run| - 1;
    assert run[n] == Verify ==> ArmedAt(s, run, n, ax);
    forall i: nat | i < n
      ensures ArmedAt(s, run, i, ax)
         <==> ArmedAt(s, run[..n], i, ax) && !SwapAt(s, run, n, ax)
    {
      ArmedAtSnoc(s, run, i, ax);
    }
  }

  /** In every run the verified flag means exactly: a verification no swap has used up. */
  lemma {:induction false} VerifiedMeansArmed(s: SystemState, run: seq<Event>, ax: Axioms)
    requires Initial(s)
    ensures Exec(s, run, ax).runtime.artifactVerified <==> Armed(s, run, ax)
  {
    if run != [] {
      var n := |run| - 1;
      VerifiedMeansArmed(s, run[..n], ax);
      NextVerified(Exec(s, run[..n], ax), run[n], ax);
      ArmedSnoc(s, run, ax);
    }
  }

  /** No swap takes effect without a verification since the last one. */
  lemma SwapsNeedVerification(s: SystemState, run: seq<Event>, k: nat, e: Event, ax: Axioms)
    requires Initial(s) && IsSwap(e) && FiresAt(s, run, k, e, ax)
    ensures Armed(s, run[..k], ax)
  {
    VerifiedMeansArmed(s, run[..k], ax);
  }

  /** Every swap comes right after a verification: the order the tool's commands use. */
  ghost predicate VerifiedRun(run: seq<Event>) {
    forall k: nat :: k < |run| && IsSwap(run[k]) ==> k > 0 && run[k - 1] == Verify
  }

  predicate AllHold(ax: Axioms) {
    ax == Axioms(true, true, true, true, true, true, true, true, true, true, true, true)
  }

  lemma VerifiedSwapFires(s: SystemState, run: seq<Event>, k: nat, ax: Axioms)
    requires AllHold(ax) && VerifiedRun(run) && k < |run|
    ensures FiresAt(s, run, k, run[k], ax)
  {
  }

  lemma FiredIsPresent(s: SystemState, run: seq<Event>, k: nat, e: Event, ax: Axioms)
    requires AllHold(ax) && VerifiedRun(run) && k <= |run|
    ensures Fired(s, run[..k], e, ax) <==> e in run[..k]
  {
    var init := run[..k];
    assert forall i: nat :: i < k ==> init[i] == run[i];
    if e in init {
      var i: nat :| i < k && init[i] == e;
      VerifiedSwapFires(s, init, i, ax);
    }
  }

  /** With all axioms and verified swaps, safety can be read off the event list alone. */
  lemma SafeOrderByPosition(s: SystemState, run: seq<Event>, ax: Axioms)
    requires Initial(s) && AllHold(ax) && VerifiedRun(run)
    ensures (forall n :: 0 <= n <= |run| ==> Boots(Exec(s, run[..n], ax), ax))
       <==> (forall k: nat :: k < |run| && run[k] == UpdateEsp ==>
               CopyBoot in run[..k] && CreateSymlinks in run[..k] && RegenGrubCfg in run[..k] && FixGrubenv in run[..k])
  {
    SafeOrderExact(s, run, ax);
    forall k: nat | k < |run|
      ensures FiresAt(s, run, k, UpdateEsp, ax) <==> run[k] == UpdateEsp
      ensures forall e :: Fired(s, run[..k], e, ax) <==> e in run[..k]
    {
      VerifiedSwapFires(s, run, k, ax);
      forall e ensures Fired(s, run[..k], e, ax) <==> e in run[..k] {
        FiredIsPresent(s, run, k, e, ax);
      }
    }
  }
}
