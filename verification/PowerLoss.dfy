/**
 Power loss. The btrfs image on disk is the one after some prefix of the operations since the
 last commit; the ESP is another file system and holds its old or its new contents, whatever
 btrfs holds. A machine goes through events, background write-back and power losses in any order.
 */
module PowerLoss {
  import opened Wrappers
  import opened Migration
  import opened Resume

  /**
   history: the states in memory since the last start, newest last. The btrfs image on disk is
   that of history[committed] or later, the ESP on disk that of history[espFlushed] or later.
   */
  datatype Machine = Machine(history: seq<SystemState>, committed: nat, espFlushed: nat) {
    ghost predicate Valid() {
      committed < |history| && espFlushed < |history|
    }

    function Current(): SystemState
      requires history != []
    {
      history[|history| - 1]
    }

    /** What a power loss can leave: btrfs state b with ESP state e. */
    predicate CanLeave(b: nat, e: nat) {
      committed <= b < |history| && espFlushed <= e < |history|
    }

    function AfterLoss(b: nat, e: nat): SystemState
      requires b < |history| && e < |history|
    {
      Restarted(history[b].(esp := history[e].esp))
    }
  }

  datatype MachineEvent =
    | Run(event: Event)
    | CommitBtrfs(upTo: nat)
    | FlushEsp(upTo: nat)
    | LosePower(b: nat, e: nat)

  function Fresh(s: SystemState): Machine {
    Machine([s], 0, 0)
  }

  function Advance(m: Machine, ev: MachineEvent, ax: Axioms): (r: Machine)
    requires m.Valid()
    ensures r.Valid()
  {
    match ev
    case Run(event) =>
      var h := m.history + [Next(m.Current(), event, ax)];
      if event == Sync && ax.syncfsCommitsTransaction then m.(history := h, committed := |h| - 1)
      else m.(history := h)
    case CommitBtrfs(n) => if m.committed <= n < |m.history| then m.(committed := n) else m
    case FlushEsp(n) => if m.espFlushed <= n < |m.history| then m.(espFlushed := n) else m
    case LosePower(b, e) => if m.CanLeave(b, e) then Fresh(m.AfterLoss(b, e)) else m
  }

  function Play(s: SystemState, run: seq<MachineEvent>, ax: Axioms): (m: Machine)
    ensures m.Valid()
  {
    if run == [] then Fresh(s) else Advance(Play(s, run[..|run| - 1], ax), run[|run| - 1], ax)
  }

  /** Every state a power loss could leave now boots. */
  ghost predicate SurvivesPowerLoss(m: Machine, ax: Axioms)
    requires m.Valid()
  {
    forall b: nat, e: nat :: m.CanLeave(b, e) ==> Boots(m.AfterLoss(b, e), ax)
  }

  /** The last event is an ESP switch the tool does not refuse. */
  ghost predicate Switches(m: Machine, ev: MachineEvent, ax: Axioms)
    requires m.Valid()
  {
    ev == Run(UpdateEsp) && Effect(m.Current(), UpdateEsp, ax).Some?
  }

  /** The preparing steps are on disk. */
  ghost predicate PreparedOnDisk(m: Machine, ax: Axioms)
    requires m.Valid()
  {
    BtrfsBootAxioms(ax) && Prepared(m.history[m.committed], ax)
  }

  /** The preparing steps are committed before every ESP switch. */
  ghost predicate CommitDiscipline(s: SystemState, run: seq<MachineEvent>, ax: Axioms) {
    forall k: nat :: k < |run| && Switches(Play(s, run[..k], ax), run[k], ax) ==>
      PreparedOnDisk(Play(s, run[..k], ax), ax)
  }

  // --- invariant ---

  ghost predicate OnBtrfs(s: SystemState) {
    s.esp.targetUuid == Btrfs
  }

  /** Nothing that was prepared comes undone. */
  ghost predicate Follows(s: SystemState, t: SystemState) {
    && (s.boot.kernelOnBtrfs ==> t.boot.kernelOnBtrfs)
    && (s.boot.symlinksExist ==> t.boot.symlinksExist)
    && (s.boot.grubCfgOnBtrfs ==> t.boot.grubCfgOnBtrfs)
    && (s.boot.grubenvNocow ==> t.boot.grubenvNocow)
  }

  ghost predicate MachineInv(m: Machine) {
    && m.Valid()
    && (forall i :: 0 <= i < |m.history| ==> Inv(m.history[i]))
    && (forall i, j :: 0 <= i <= j < |m.history| ==> Follows(m.history[i], m.history[j]))
  }

  /** If the ESP may point to btrfs, the preparing steps are on disk. */
  ghost predicate Guarded(m: Machine, ax: Axioms)
    requires m.Valid()
  {
    (exists i :: 0 <= i < |m.history| && OnBtrfs(m.history[i])) ==> PreparedOnDisk(m, ax)
  }

  lemma NextFollows(s: SystemState, e: Event, ax: Axioms)
    ensures Follows(s, Next(s, e, ax))
    ensures OnBtrfs(Next(s, e, ax)) <==> OnBtrfs(s) || (e == UpdateEsp && Effect(s, e, ax).Some?)
  {
  }

  lemma AfterLossInv(m: Machine, b: nat, e: nat)
    requires MachineInv(m) && b < |m.history| && e < |m.history|
    ensures Inv(m.AfterLoss(b, e))
  {
  }

  lemma AdvanceInv(m: Machine, ev: MachineEvent, ax: Axioms)
    requires MachineInv(m)
    ensures MachineInv(Advance(m, ev, ax))
  {
    match ev
    case Run(event) =>
      NextInv(m.Current(), event, ax);
      NextFollows(m.Current(), event, ax);
      var h := Advance(m, ev, ax).history;
      forall i, j | 0 <= i <= j < |h|
        ensures Follows(h[i], h[j])
      {
        if j == |m.history| && i < j {
          assert Follows(m.history[i], m.Current());
        }
      }
    case LosePower(b, e) =>
      if m.CanLeave(b, e) {
        AfterLossInv(m, b, e);
      }
    case _ =>
  }

  lemma {:induction false} PlayInv(s: SystemState, run: seq<MachineEvent>, ax: Axioms)
    requires Initial(s)
    ensures MachineInv(Play(s, run, ax))
  {
    if run == [] {
      InitialInv(s);
    } else {
      PlayInv(s, run[..|run| - 1], ax);
      AdvanceInv(Play(s, run[..|run| - 1], ax), run[|run| - 1], ax);
    }
  }

  /** The guard is kept by every event; an ESP switch needs the steps on disk. */
  lemma AdvanceGuarded(m: Machine, ev: MachineEvent, ax: Axioms)
    requires MachineInv(m) && Guarded(m, ax)
    requires Switches(m, ev, ax) ==> PreparedOnDisk(m, ax)
    ensures Guarded(Advance(m, ev, ax), ax)
  {
  }

  /** Guarded means: no power loss can leave an unbootable machine. */
  lemma GuardedSurvives(m: Machine, ax: Axioms)
    requires MachineInv(m) && Guarded(m, ax) && ax.grubFollowsEspUuid
    ensures SurvivesPowerLoss(m, ax)
  {
  }

  /** Without the steps on disk, the ESP switch opens a window in which power loss is fatal. */
  lemma UndisciplinedSwitchIsFatal(m: Machine, ax: Axioms)
    requires MachineInv(m) && Switches(m, Run(UpdateEsp), ax) && !PreparedOnDisk(m, ax)
    ensures !SurvivesPowerLoss(Advance(m, Run(UpdateEsp), ax), ax)
  {
    var r := Advance(m, Run(UpdateEsp), ax);
    var e := |m.history|;
    AdvanceInv(m, Run(UpdateEsp), ax);
    NextFollows(m.Current(), UpdateEsp, ax);
    assert r.CanLeave(m.committed, e);
    AfterLossInv(r, m.committed, e);
    BootsExactly(r.AfterLoss(m.committed, e), ax);
  }

  lemma {:induction false} DisciplinedIsGuarded(s: SystemState, run: seq<MachineEvent>, n: nat, ax: Axioms)
    requires Initial(s) && n <= |run| && CommitDiscipline(s, run, ax)
    ensures Guarded(Play(s, run[..n], ax), ax)
  {
    if n > 0 {
      DisciplinedIsGuarded(s, run, n - 1, ax);
      PlayInv(s, run[..n - 1], ax);
      assert run[..n][..n - 1] == run[..n - 1];
      AdvanceGuarded(Play(s, run[..n - 1], ax), run[n - 1], ax);
    }
  }

  /**
   The exact commit condition: over a run with interruptions, restarts and power losses, no power
   loss at any point can leave an unbootable machine if and only if GRUB follows the ESP and the
   preparing steps are committed to disk before every ESP switch.
   */
  lemma PowerLossExact(s: SystemState, run: seq<MachineEvent>, ax: Axioms)
    requires Initial(s)
    ensures (forall n :: 0 <= n <= |run| ==> SurvivesPowerLoss(Play(s, run[..n], ax), ax))
       <==> ax.grubFollowsEspUuid && CommitDiscipline(s, run, ax)
  {
    if forall n :: 0 <= n <= |run| ==> SurvivesPowerLoss(Play(s, run[..n], ax), ax) {
      var m0 := Play(s, run[..0], ax);
      assert SurvivesPowerLoss(m0, ax) && m0.CanLeave(0, 0);
      assert Boots(m0.AfterLoss(0, 0), ax);
      forall k: nat | k < |run| && Switches(Play(s, run[..k], ax), run[k], ax)
        ensures PreparedOnDisk(Play(s, run[..k], ax), ax)
      {
        var m := Play(s, run[..k], ax);
        PlayInv(s, run[..k], ax);
        assert run[..k + 1][..k] == run[..k];
        assert SurvivesPowerLoss(Play(s, run[..k + 1], ax), ax);
        if !PreparedOnDisk(m, ax) {
          UndisciplinedSwitchIsFatal(m, ax);
        }
      }
    }
    if ax.grubFollowsEspUuid && CommitDiscipline(s, run, ax) {
      forall n | 0 <= n <= |run|
        ensures SurvivesPowerLoss(Play(s, run[..n], ax), ax)
      {
        PlayInv(s, run[..n], ax);
        DisciplinedIsGuarded(s, run, n, ax);
        GuardedSurvives(Play(s, run[..n], ax), ax);
      }
    }
  }

  // --- what a sync buys ---

  /** The two states agree on everything that btrfs stores. */
  ghost predicate SameOnBtrfs(s: SystemState, t: SystemState) {
    s.boot == t.boot && s.layout == t.layout && s.subvols == t.subvols
  }

  /** The durable bit never lies about btrfs: it is set only while the disk has the current state. */
  ghost predicate DurableTruthful(m: Machine)
    requires m.Valid()
  {
    m.Current().runtime.durable ==>
      forall b :: m.committed <= b < |m.history| ==> SameOnBtrfs(m.history[b], m.Current())
  }

  lemma StaysDurable(s: SystemState, e: Event, ax: Axioms)
    requires Next(s, e, ax).runtime.durable && e != Sync
    ensures s.runtime.durable && SameOnBtrfs(s, Next(s, e, ax)) && Next(s, e, ax).esp == s.esp
  {
  }

  lemma AdvanceDurable(m: Machine, ev: MachineEvent, ax: Axioms)
    requires m.Valid() && DurableTruthful(m)
    ensures DurableTruthful(Advance(m, ev, ax))
  {
    var r := Advance(m, ev, ax);
    if ev.Run? && r.Current().runtime.durable && ev.event != Sync {
      StaysDurable(m.Current(), ev.event, ax);
      forall b | m.committed <= b < |r.history|
        ensures SameOnBtrfs(r.history[b], r.Current())
      {
        if b < |m.history| {
          assert SameOnBtrfs(m.history[b], m.Current());
        }
      }
    }
  }

  lemma {:induction false} DurableMeansOnDisk(s: SystemState, run: seq<MachineEvent>, ax: Axioms)
    requires Initial(s)
    ensures DurableTruthful(Play(s, run, ax))
  {
    if run != [] {
      DurableMeansOnDisk(s, run[..|run| - 1], ax);
      AdvanceDurable(Play(s, run[..|run| - 1], ax), run[|run| - 1], ax);
    }
  }

  // --- the order in which the migrate command works ---

  function AllRun(events: seq<Event>): seq<MachineEvent> {
    if events == [] then [] else AllRun(events[..|events| - 1]) + [Run(events[|events| - 1])]
  }

  /** The events of a pass up to and including the ESP switch. */
  const UNTIL_SWITCH: seq<Event> := PREPARE + FSTAB_AND_INITRAMFS + GRUB + [UpdateEsp]

  lemma {:induction false} UnsyncedKeepsNothing(s: SystemState, events: seq<Event>, ax: Axioms)
    requires Sync !in events
    ensures var m := Play(s, AllRun(events), ax);
      m.committed == 0 && m.espFlushed == 0 && m.history[0] == s && m.Current() == Exec(s, events, ax)
  {
    if events != [] {
      var init := events[..|events| - 1];
      UnsyncedKeepsNothing(s, init, ax);
      assert AllRun(events)[..|AllRun(events)| - 1] == AllRun(init);
    }
  }

  /** Any unsynced preparation that ends in a verification, followed by the switch. */
  lemma UnsyncedSwitchCanFail(s: SystemState, before: seq<Event>, ax: Axioms)
    requires Initial(s) && AllHold(ax) && Sync !in before && before != [] && before[|before| - 1] == Verify
    ensures !SurvivesPowerLoss(Play(s, AllRun(before + [UpdateEsp]), ax), ax)
  {
    var m := Play(s, AllRun(before), ax);
    UnsyncedKeepsNothing(s, before, ax);
    PlayInv(s, AllRun(before), ax);
    assert (before + [UpdateEsp])[..|before|] == before;
    assert AllRun(before + [UpdateEsp]) == AllRun(before) + [Run(UpdateEsp)];
    assert (AllRun(before) + [Run(UpdateEsp)])[..|AllRun(before)|] == AllRun(before);
    UndisciplinedSwitchIsFatal(m, ax);
  }

  /**
   The migrate command syncs only after its last step, so between the ESP switch and a
   background commit a power loss can leave an ESP that points to an unprepared btrfs.
   */
  lemma MigrateWithoutCommitCanFail(s: SystemState, ax: Axioms)
    requires Initial(s) && AllHold(ax)
    ensures !SurvivesPowerLoss(Play(s, AllRun(UNTIL_SWITCH), ax), ax)
  {
    UnsyncedSwitchCanFail(s, PREPARE + FSTAB_AND_INITRAMFS + GRUB, ax);
  }

  lemma SyncThenVerify(m: Machine, ax: Axioms)
    requires m.Valid() && AllHold(ax) && Prepared(m.Current(), ax)
    ensures PreparedOnDisk(Advance(Advance(m, Run(Sync), ax), Run(Verify), ax), ax)
  {
    var r := Advance(m, Run(Sync), ax);
    assert Prepared(r.history[r.committed], ax);
  }

  /** Every switch of the ESP comes right after a sync, with btrfs prepared, and a verification. */
  ghost predicate SyncsBeforeSwitch(s: SystemState, run: seq<MachineEvent>, ax: Axioms) {
    forall k: nat :: k < |run| && run[k] == Run(UpdateEsp) ==>
      && k >= 2 && run[k - 2] == Run(Sync) && run[k - 1] == Run(Verify)
      && Prepared(Play(s, run[..k - 2], ax).Current(), ax)
  }

  /** A sync before each verified switch is all that is missing: then no power loss is fatal. */
  lemma SyncBeforeSwitchSuffices(s: SystemState, run: seq<MachineEvent>, ax: Axioms)
    requires Initial(s) && AllHold(ax) && SyncsBeforeSwitch(s, run, ax)
    ensures forall n :: 0 <= n <= |run| ==> SurvivesPowerLoss(Play(s, run[..n], ax), ax)
  {
    forall k: nat | k < |run| && Switches(Play(s, run[..k], ax), run[k], ax)
      ensures PreparedOnDisk(Play(s, run[..k], ax), ax)
    {
      assert run[..k][..k - 1] == run[..k - 1] && run[..k - 1][..k - 2] == run[..k - 2];
      SyncThenVerify(Play(s, run[..k - 2], ax), ax);
    }
    PowerLossExact(s, run, ax);
  }

  // --- what the durable bit does not cover ---

  /** Every power loss leaves the current state, on both file systems. */
  ghost predicate LeavesCurrent(m: Machine)
    requires m.Valid()
  {
    forall b: nat, e: nat :: m.CanLeave(b, e) ==>
      SameOnBtrfs(m.AfterLoss(b, e), m.Current()) && m.AfterLoss(b, e).esp == m.Current().esp
  }

  /** Only one other text is ever written to the ESP. */
  ghost predicate EspChangesOnce(m: Machine)
    requires m.Valid()
  {
    forall i, j :: 0 <= i <= j < |m.history| ==>
      m.history[j].esp == m.history[i].esp || m.history[j].esp == Esp(Btrfs, true, true)
  }

  lemma NextEsp(s: SystemState, e: Event, ax: Axioms)
    ensures Next(s, e, ax).esp == s.esp || Next(s, e, ax).esp == Esp(Btrfs, true, true)
  {
  }

  lemma {:induction false} PlayChangesOnce(s: SystemState, run: seq<MachineEvent>, ax: Axioms)
    ensures EspChangesOnce(Play(s, run, ax))
  {
    if run != [] {
      var m := Play(s, run[..|run| - 1], ax);
      PlayChangesOnce(s, run[..|run| - 1], ax);
      if run[|run| - 1].Run? {
        NextEsp(m.Current(), run[|run| - 1].event, ax);
      }
    }
  }

  /**
   The durable bit speaks for the whole machine exactly while the oldest ESP that can be on disk is
   the current one.
   */
  lemma DurableNeedsEsp(s: SystemState, run: seq<MachineEvent>, ax: Axioms)
    requires Initial(s) && Play(s, run, ax).Current().runtime.durable
    ensures var m := Play(s, run, ax);
      LeavesCurrent(m) <==> m.history[m.espFlushed].esp == m.Current().esp
  {
    var m := Play(s, run, ax);
    DurableMeansOnDisk(s, run, ax);
    PlayChangesOnce(s, run, ax);
    if LeavesCurrent(m) {
      assert m.CanLeave(m.committed, m.espFlushed);
    }
  }

  /** A sync at the end of any run leaves no power loss that loses a btrfs change. */
  lemma SyncMakesDurable(s: SystemState, run: seq<MachineEvent>, ax: Axioms)
    requires Initial(s) && ax.syncfsCommitsTransaction
    ensures var m := Play(s, run + [Run(Sync)], ax);
      && (forall b: nat, e: nat :: m.CanLeave(b, e) ==> SameOnBtrfs(m.AfterLoss(b, e), m.Current()))
      && (LeavesCurrent(m) <==> m.history[m.espFlushed].esp == m.Current().esp)
  {
    assert (run + [Run(Sync)])[..|run|] == run;
    DurableMeansOnDisk(s, run + [Run(Sync)], ax);
    DurableNeedsEsp(s, run + [Run(Sync)], ax);
  }

  lemma SyncAfterUnsynced(s: SystemState, events: seq<Event>, ax: Axioms)
    requires AllHold(ax) && Sync !in events
    ensures var m := Play(s, AllRun(events) + [Run(Sync)], ax);
      && m.Current().runtime.durable && m.Current().esp == Exec(s, events, ax).esp
      && m.espFlushed == 0 && m.history[0] == s
  {
    UnsyncedKeepsNothing(s, events, ax);
    assert (AllRun(events) + [Run(Sync)])[..|AllRun(events)|] == AllRun(events);
  }

  /** After a full migration and its sync the bit is set, and the old ESP may still be on disk. */
  lemma DurableBitMissesEsp(s: SystemState, ax: Axioms)
    requires Initial(s) && AllHold(ax)
    ensures var m := Play(s, AllRun(PASS) + [Run(Sync)], ax);
      m.Current().runtime.durable && m.history[m.espFlushed].esp != m.Current().esp && !LeavesCurrent(m)
  {
    SyncAfterUnsynced(s, PASS, ax);
    PassResult(s, ax);
    assert s.esp.targetUuid == Ext4 && AfterPass(s, ax).esp.targetUuid == Btrfs;
    DurableNeedsEsp(s, AllRun(PASS) + [Run(Sync)], ax);
  }
}
