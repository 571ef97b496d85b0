/** Rollback with the gate's own verdict on the snapshot. */
module GatedRollback {
  import opened Wrappers
  import opened Verdict
  import opened Store
  import opened Operations
  import opened Gate

  const TOPLEVEL_MOUNT := "/mnt/atomic-rollback-toplevel"

  /** What the gate demands of a snapshot, read under the mounted top level. */
  ghost predicate SnapshotChain(h: Host, name: string) {
    var root := At(TOPLEVEL_MOUNT, name);
    ForSnapshot(h, root).Ok? && CommonChain(h, root, ForSnapshot(h, root).value)
  }

  /** The answer of the gate as rollback sees it. */
  ghost function VerdictOn(h: Host, name: string): BootStatus {
    if SnapshotChain(h, name) then Pass else Fail
  }

  lemma OnlyAcceptanceMatters<C>(d: Disk<C>, conf: Conf, name: string, env: RollbackEnv, a: BootStatus, b: BootStatus)
    requires (a.Pass? || a.Warn?) == (b.Pass? || b.Warn?)
    ensures RollbackDisk(d, conf, name, env.(verdict := a)) == RollbackDisk(d, conf, name, env.(verdict := b))
    ensures Completes(d, conf, name, env.(verdict := a)) == Completes(d, conf, name, env.(verdict := b))
  {
  }

  /** A snapshot without its own grub.cfg, as on a system where /boot is not on btrfs, is refused. */
  lemma WithoutGrubCfgRefused(h: Host, name: string)
    requires At(At(TOPLEVEL_MOUNT, name), GRUB_CFG) !in h.sizes
    ensures !SnapshotChain(h, name)
  {
  }

  /**
   A rollback on a host: names and default change only if the declarative chain of the snapshot
   holds, and a rollback that succeeds has made a verified snapshot the root.
   */
  method Rollback<C>(disk: Namespace<C>, h: Host, name: string, env: RollbackEnv)
    returns (failure: Option<RollbackError>)
    modifies disk
    ensures disk.State()
      == RollbackDisk(old(disk.State()), ConfOf(disk.fstab), name, env.(verdict := VerdictOn(h, name)))
    ensures failure.None? <==>
      env.sync && Completes(old(disk.State()), ConfOf(disk.fstab), name, env.(verdict := VerdictOn(h, name)))
    ensures !SnapshotChain(h, name) ==> failure.Some? && disk.State() == old(disk.State())
    ensures At(At(TOPLEVEL_MOUNT, name), GRUB_CFG) !in h.sizes ==>
      failure.Some? && disk.State() == old(disk.State())
  {
    if At(At(TOPLEVEL_MOUNT, name), GRUB_CFG) !in h.sizes {
      WithoutGrubCfgRefused(h, name);
    }
    var verdict := VerifySnapshotBootable(h, At(TOPLEVEL_MOUNT, name));
    OnlyAcceptanceMatters(disk.State(), ConfOf(disk.fstab), name, env, verdict, VerdictOn(h, name));
    failure := disk.Rollback(name, env.(verdict := verdict));
  }
}
