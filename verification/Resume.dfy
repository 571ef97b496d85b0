/** Interrupted and restarted migrations end where an uninterrupted one ends. */
module Resume {
  import opened Wrappers
  import opened Migration

  const PREPARE: seq<Event> := [CopyBoot, CreateSymlinks, SetDefaultSubvol, SwitchBoot]
  const FSTAB_AND_INITRAMFS: seq<Event> := [Verify, UpdateFstab, Verify, RebuildInitramfs]
  const GRUB: seq<Event> := [Verify, RegenGrubCfg, FixGrubenv, Verify]
  const ESP_AND_VAR: seq<Event> := [UpdateEsp, Verify, SeparateVar]

  /**
   The ten steps as the model in proof.rs composes them, each swap verified first. The migrate command
   itself runs its gate after the swap; that order is in MigrateRun.
   */
  const PASS: seq<Event> := PREPARE + FSTAB_AND_INITRAMFS + GRUB + ESP_AND_VAR

  lemma {:induction false} ExecConcat(s: SystemState, a: seq<Event>, b: seq<Event>, ax: Axioms)
    ensures Exec(s, a + b, ax) == Exec(Exec(s, a, ax), b, ax)
  {
    if b == [] {
      assert a + b == a;
    } else {
      assert (a + b)[..|a + b| - 1] == a + b[..|b| - 1];
      ExecConcat(s, a, b[..|b| - 1], ax);
    }
  }

  lemma ExecThree(s: SystemState, a: Event, b: Event, c: Event, ax: Axioms)
    ensures Exec(s, [a, b, c], ax) == Next(Next(Next(s, a, ax), b, ax), c, ax)
  {
    assert [a, b, c][..2] == [a, b];
    assert [a, b][..1] == [a];
    assert [a][..0] == [];
    assert Exec(s, [a], ax) == Next(s, a, ax);
    assert Exec(s, [a, b], ax) == Next(Next(s, a, ax), b, ax);
  }

  lemma ExecFour(s: SystemState, a: Event, b: Event, c: Event, d: Event, ax: Axioms)
    ensures Exec(s, [a, b, c, d], ax) == Next(Next(Next(Next(s, a, ax), b, ax), c, ax), d, ax)
  {
    assert [a, b, c, d][..3] == [a, b, c];
    ExecThree(s, a, b, c, ax);
  }

  // --- what a full pass makes of a state ---

  function BootAfterPass(b: BootFiles, swaps: bool): BootFiles {
    var c := b.(kernelOnBtrfs := true, symlinksExist := true, grubenvNocow := true);
    if swaps then c.(initramfsCurrent := true, grubCfgOnBtrfs := true, grubCfgCurrent := true) else c
  }

  function LayoutAfterPass(l: Layout, swaps: bool): Layout {
    if swaps then SeparatedVar(l.(fstabHasExt4Boot := false)) else l
  }

  function AfterPass(s: SystemState, ax: Axioms): SystemState {
    var swaps := ax.renameExchangeAtomicBtrfs;
    SystemState(
      if ax.renameExchangeSafeVfat then Esp(Btrfs, true, true) else s.esp,
      BootAfterPass(s.boot, swaps),
      LayoutAfterPass(s.layout, swaps),
      s.subvols.(default := s.subvols.root),
      Runtime(ext4BootMounted := false, artifactVerified := !swaps, durable := false))
  }

  lemma FirstHalf(s: SystemState, ax: Axioms)
    ensures Exec(s, PREPARE + FSTAB_AND_INITRAMFS, ax)
         == var swaps := ax.renameExchangeAtomicBtrfs;
            var b := s.boot.(kernelOnBtrfs := true, symlinksExist := true);
            s.(boot := if swaps then b.(initramfsCurrent := true) else b,
               layout := if swaps then s.layout.(fstabHasExt4Boot := false) else s.layout,
               subvols := s.subvols.(default := s.subvols.root),
               runtime := Runtime(ext4BootMounted := false, artifactVerified := !swaps, durable := false))
  {
    ExecConcat(s, PREPARE, FSTAB_AND_INITRAMFS, ax);
    ExecFour(s, CopyBoot, CreateSymlinks, SetDefaultSubvol, SwitchBoot, ax);
    var t := Exec(s, PREPARE, ax);
    assert t == s.(boot := s.boot.(kernelOnBtrfs := true, symlinksExist := true),
                   subvols := s.subvols.(default := s.subvols.root),
                   runtime := s.runtime.(ext4BootMounted := false, durable := false));
    ExecFour(t, Verify, UpdateFstab, Verify, RebuildInitramfs, ax);
  }

  lemma SecondHalf(s: SystemState, ax: Axioms)
    ensures Exec(s, GRUB + ESP_AND_VAR, ax)
         == var swaps := ax.renameExchangeAtomicBtrfs;
            var b := s.boot.(grubenvNocow := true);
            s.(esp := if ax.renameExchangeSafeVfat then Esp(Btrfs, true, true) else s.esp,
               boot := if swaps then b.(grubCfgOnBtrfs := true, grubCfgCurrent := true) else b,
               layout := if swaps then SeparatedVar(s.layout) else s.layout,
               runtime := s.runtime.(artifactVerified := !swaps, durable := false))
  {
    ExecConcat(s, GRUB, ESP_AND_VAR, ax);
    ExecFour(s, Verify, RegenGrubCfg, FixGrubenv, Verify, ax);
    var t := Exec(s, GRUB, ax);
    var b := s.boot.(grubenvNocow := true);
    assert t == s.(boot := if ax.renameExchangeAtomicBtrfs
                           then b.(grubCfgOnBtrfs := true, grubCfgCurrent := true) else b,
                   runtime := s.runtime.(artifactVerified := true, durable := false));
    ExecThree(t, UpdateEsp, Verify, SeparateVar, ax);
  }

  lemma PassResult(s: SystemState, ax: Axioms)
    ensures Exec(s, PASS, ax) == AfterPass(s, ax)
  {
    assert PASS == (PREPARE + FSTAB_AND_INITRAMFS) + (GRUB + ESP_AND_VAR);
    ExecConcat(s, PREPARE + FSTAB_AND_INITRAMFS, GRUB + ESP_AND_VAR, ax);
    FirstHalf(s, ax);
    SecondHalf(Exec(s, PREPARE + FSTAB_AND_INITRAMFS, ax), ax);
  }

  // --- absorption ---

  /** What happens to a machine during a migration that keeps being interrupted. */
  datatype Activity = Do(e: Event) | Restart

  /** After a restart fstab decides what is mounted and the tool has verified nothing. */
  function Restarted(s: SystemState): SystemState {
    s.(runtime := Runtime(ext4BootMounted := s.layout.fstabHasExt4Boot, artifactVerified := false, durable := true))
  }

  function Live(s: SystemState, acts: seq<Activity>, ax: Axioms): SystemState {
    if acts == [] then s
    else
      var t := Live(s, acts[..|acts| - 1], ax);
      match acts[|acts| - 1] case Do(e) => Next(t, e, ax) case Restart => Restarted(t)
  }

  /** With kernel installs, rollbacks and restarts anywhere, data and /var configuration stay sound. */
  lemma {:induction false} LiveStaysSound(s: SystemState, acts: seq<Activity>, ax: Axioms)
    requires Initial(s)
    ensures Inv(Live(s, acts, ax))
    ensures DataSafe(Live(s, acts, ax)) && VarConfigConsistent(Live(s, acts, ax))
  {
    if acts == [] {
      InitialInv(s);
    } else {
      var init, last := acts[..|acts| - 1], acts[|acts| - 1];
      LiveStaysSound(s, init, ax);
      match last
      case Do(e) => NextInv(Live(s, init, ax), e, ax);
      case Restart =>
    }
  }

  /** Migration steps, verifications and syncs, in any order, with restarts anywhere. */
  ghost predicate MigrationActivity(acts: seq<Activity>) {
    forall k :: 0 <= k < |acts| && acts[k].Do? ==> !acts[k].e.InstallKernel? && !acts[k].e.RollBack?
  }

  /** A full pass afterwards hides whatever a migration event did before. */
  lemma PassAbsorbs(s: SystemState, e: Event, ax: Axioms)
    requires !e.InstallKernel? && !e.RollBack?
    ensures AfterPass(Next(s, e, ax), ax) == AfterPass(s, ax)
  {
  }

  /** Whatever an interrupted migration did, one full pass ends where it ends on a fresh system. */
  lemma {:induction false} ResumeEqualsUninterrupted(s: SystemState, acts: seq<Activity>, ax: Axioms)
    requires MigrationActivity(acts)
    ensures Exec(Live(s, acts, ax), PASS, ax) == Exec(s, PASS, ax)
  {
    PassResult(s, ax);
    PassResult(Live(s, acts, ax), ax);
    if acts != [] {
      var init, last := acts[..|acts| - 1], acts[|acts| - 1];
      ResumeEqualsUninterrupted(s, init, ax);
      PassResult(Live(s, init, ax), ax);
      match last
      case Do(e) => PassAbsorbs(Live(s, init, ax), e, ax);
      case Restart =>
    }
  }

  /** Passes cut off after the given numbers of events, one after the other. */
  function PartialPasses(cuts: seq<nat>): seq<Event> {
    if cuts == [] then []
    else PartialPasses(cuts[..|cuts| - 1]) + PASS[..if cuts[|cuts| - 1] <= |PASS| then cuts[|cuts| - 1] else |PASS|]
  }

  lemma {:induction false} PartialPassEvents(cuts: seq<nat>)
    ensures forall e :: e in PartialPasses(cuts) ==> e in PASS
  {
    if cuts != [] {
      PartialPassEvents(cuts[..|cuts| - 1]);
    }
  }

  lemma {:induction false} LiveIsExec(s: SystemState, run: seq<Event>, ax: Axioms)
    ensures Live(s, seq(|run|, i requires 0 <= i < |run| => Do(run[i])), ax) == Exec(s, run, ax)
  {
    if run != [] {
      var n := |run| - 1;
      var acts := seq(|run|, i requires 0 <= i < |run| => Do(run[i]));
      LiveIsExec(s, run[..n], ax);
      assert acts[..n] == seq(n, i requires 0 <= i < n => Do(run[..n][i]));
    }
  }

  /** Any number of partial passes, then a full one: the result of a single full pass. */
  lemma PartialPassesThenFull(s: SystemState, cuts: seq<nat>, ax: Axioms)
    ensures Exec(s, PartialPasses(cuts) + PASS, ax) == Exec(s, PASS, ax)
  {
    var run := PartialPasses(cuts);
    var acts := seq(|run|, i requires 0 <= i < |run| => Do(run[i]));
    PartialPassEvents(cuts);
    forall k | 0 <= k < |acts| && acts[k].Do?
      ensures !acts[k].e.InstallKernel? && !acts[k].e.RollBack?
    {
      assert run[k] in PASS;
    }
    ExecConcat(s, run, PASS, ax);
    LiveIsExec(s, run, ax);
    ResumeEqualsUninterrupted(s, acts, ax);
  }
}
