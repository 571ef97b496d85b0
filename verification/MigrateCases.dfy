/** The ten turns of the migrate command, and runs of it that leave the system changed. */
module MigrateCases {
  import opened Wrappers
  import opened Store
  import opened MigrateRun

  // --- the command ---

  /** Step i + 1; only reading the kernel version can fail after all changes of a step. */
  predicate FitsStep<C>(i: nat, t: Turn<C>) {
    && (i == 0 <==> t.step.CopyBoot?) && (i == 1 <==> t.step.MakeLinks?) && (i == 2 <==> t.step.SetDefault?)
    && (i == 3 <==> t.step.SwitchBoot?) && (i == 4 <==> t.step.NewFstab?) && (i == 5 <==> t.step.NewInitramfs?)
    && (i == 6 <==> t.step.NewGrubCfg?) && (i == 7 <==> t.step.FixGrubenv?) && (i == 8 <==> t.step.NewEsp?)
    && match t.outcome case Stops(n) => n < Length(t.step) case Finishes(late) => late ==> i == 5
  }

  ghost predicate IsMigrate<C>(turns: seq<Turn<C>>) {
    |turns| == 10 && forall i :: 0 <= i < |turns| ==> FitsStep(i, turns[i])
  }

  /** The step whose exchange can stay unverified: 5, 6, 7 or 9 run to its end, or 10 past its exchange. */
  predicate PastExchange<C>(k: nat, t: Turn<C>) {
    || ((k == 4 || k == 5 || k == 6 || k == 8) && t.outcome.Finishes?)
    || (k == 9 && t.step.SeparateVar? && !t.step.already && (t.outcome.Finishes? || t.outcome.changes == 9))
  }

  /** In the command an unverified file is live at the end exactly if the first bad turn is one of these. */
  lemma MigrateLeavesUnverified<C>(m: Machine<C>, root: string, turns: seq<Turn<C>>)
    requires Baseline(m, root) && IsMigrate(turns)
    ensures Run(m, root, turns).machine.gated != PLACES
       <==> exists k: nat :: FirstBad(turns, k) && PastExchange(k, turns[k])
  {
    UnverifiedLiveExactly(m, root, turns);
    forall k: nat | k < |turns|
      ensures Exchanges(turns[k]) <==> PastExchange(k, turns[k])
    {
      ExchangesPast(k, turns[k]);
    }
  }

  lemma ExchangesPast<C>(k: nat, t: Turn<C>)
    requires k < 10 && FitsStep(k, t)
    ensures Exchanges(t) <==> PastExchange(k, t)
  {
  }

  // --- runs ---

  function Well<C>(step: Step<C>): Turn<C> {
    Turn(step, Finishes(false), true)
  }

  /** A run in which everything goes well; /var is separated unless it already is. */
  function FineRun<C>(v: nat, already: bool, empty: C, copied: C): seq<Turn<C>> {
    var art := Art(v, true);
    [Well(CopyBoot(v)), Well(MakeLinks([])), Well(SetDefault), Well(SwitchBoot), Well(NewFstab(art)),
     Well(NewInitramfs(art)), Well(NewGrubCfg(art)), Well(FixGrubenv), Well(NewEsp(art)),
     Well(SeparateVar(art, already, empty, copied))]
  }

  lemma FineRunIsFine<C>(v: nat, already: bool, empty: C, copied: C)
    ensures IsMigrate(FineRun(v, already, empty, copied))
    ensures forall i :: 0 <= i < 10 ==> Fine(FineRun(v, already, empty, copied)[i])
  {
  }

  /** One turn of a fine run goes otherwise. */
  lemma OneBadTurn<C>(v: nat, already: bool, empty: C, copied: C, k: nat, bad: Turn<C>)
    requires k < 10 && FitsStep(k, bad) && !Fine(bad)
    ensures var turns := FineRun(v, already, empty, copied)[k := bad]; IsMigrate(turns) && FirstBad(turns, k)
  {
    FineRunIsFine(v, already, empty, copied);
  }

  /** The generated grub.cfg is bad: its gate fails, and the bad file stays live. */
  lemma BadGrubCfgStaysLive<C>(m: Machine<C>, root: string, v: nat, empty: C, copied: C)
    requires Baseline(m, root)
    ensures var turns := FineRun(v, false, empty, copied)[6 := Well(NewGrubCfg(Art(v, false)))];
      && IsMigrate(turns) && Run(m, root, turns).passed == 6
      && !AllSound(Run(m, root, turns).machine.sys) && Run(m, root, turns).machine.gated != PLACES
  {
    var bad := Well(NewGrubCfg(Art(v, false)));
    var turns := FineRun(v, false, empty, copied)[6 := bad];
    OneBadTurn(v, false, empty, copied, 6, bad);
    RunStopsAtFirstBad(m, root, turns, 6);
    assert turns[6] == bad && Exchanges(bad);
    UnsoundLiveExactly(m, root, turns);
    UnverifiedLiveExactly(m, root, turns);
  }

  /** The copy of step 1 fails right after /boot is unmounted: it stays unmounted. */
  lemma BootStaysUnmounted<C>(m: Machine<C>, root: string, v: nat, empty: C, copied: C)
    requires Baseline(m, root) && Boot in m.sys.mounts
    ensures var turns := FineRun(v, false, empty, copied)[0 := Turn(CopyBoot(v), Stops(2), true)];
      IsMigrate(turns) && Run(m, root, turns).passed == 0 && Boot !in Run(m, root, turns).machine.sys.mounts
  {
    var bad: Turn<C> := Turn(CopyBoot(v), Stops(2), true);
    var turns := FineRun(v, false, empty, copied)[0 := bad];
    OneBadTurn(v, false, empty, copied, 0, bad);
    RunStopsAtFirstBad(m, root, turns, 0);
    assert turns[..0] == [];
  }

  // --- what the other steps do to the subvolumes ---

  ghost predicate SameSubvols<C>(d: Disk<C>, e: Disk<C>) {
    e == d.(defaultId := e.defaultId)
  }

  lemma ActKeepsSubvols<C>(m: Machine<C>, root: string, t: Turn<C>)
    requires Sane(m.sys, root) && !t.step.SeparateVar?
    ensures SameSubvols(m.sys.disk, Act(m, root, t).sys.disk)
    ensures !t.step.SetDefault? ==> Act(m, root, t).sys.disk == m.sys.disk
  {
    StepKeepsSubvols(m.sys, root, t.step, Changes(t));
  }

  lemma StepKeepsSubvols<C>(s: System<C>, root: string, step: Step<C>, k: nat)
    requires Sane(s, root) && !step.SeparateVar?
    ensures SameSubvols(s.disk, AfterStep(s, root, step, k).disk)
    ensures !step.SetDefault? ==> AfterStep(s, root, step, k).disk == s.disk
  {
    match step
    case CopyBoot(_) => case MakeLinks(_) => case SetDefault => case SwitchBoot => case FixGrubenv =>
    case NewFstab(_) => case NewInitramfs(_) => case NewGrubCfg(_) => case NewEsp(_) =>
  }

  lemma {:induction false} RunKeepsSubvols<C>(m: Machine<C>, root: string, turns: seq<Turn<C>>)
    requires Sane(m.sys, root) && forall i :: 0 <= i < |turns| ==> !turns[i].step.SeparateVar?
    ensures SameSubvols(m.sys.disk, Run(m, root, turns).machine.sys.disk)
    ensures (forall i :: 0 <= i < |turns| ==> !turns[i].step.SetDefault?) ==>
      Run(m, root, turns).machine.sys.disk == m.sys.disk
    decreases |turns|
  {
    if turns != [] {
      ActKeepsSubvols(m, root, turns[0]);
      if Passes(m, root, turns[0]) {
        RunKeepsSubvols(Act(m, root, turns[0]).(gated := PLACES), root, turns[1..]);
      }
    }
  }

  /** Step 3 works and its gate fails: the default subvolume stays set. */
  lemma DefaultStaysSet<C>(m: Machine<C>, root: string, v: nat, empty: C, copied: C)
    requires Baseline(m, root) && !RootIsDefault(m.sys.disk, root)
    ensures var turns := FineRun(v, false, empty, copied)[2 := Turn(SetDefault, Finishes(false), false)];
      && IsMigrate(turns) && Run(m, root, turns).passed == 2
      && RootIsDefault(Run(m, root, turns).machine.sys.disk, root)
  {
    var bad: Turn<C> := Turn(SetDefault, Finishes(false), false);
    var turns := FineRun(v, false, empty, copied)[2 := bad];
    OneBadTurn(v, false, empty, copied, 2, bad);
    RunStopsAtFirstBad(m, root, turns, 2);
  }

  // --- an existing subvolume named var ---

  /**
   An existing subvolume named "var" keeps its content through step 10 exactly if /var is a mount
   point already or the step stops before it deletes that subvolume.
   */
  lemma VarSurvivesExactly<C>(s: System<C>, root: string, step: Step<C>, k: nat, v: nat)
    requires Sane(s, root) && step.SeparateVar? && IdOf(s.disk, VAR) == Some(v)
    ensures v in s.disk.content
    ensures var d := AfterStep(s, root, step, k).disk;
      v in d.content && d.content[v] == s.disk.content[v] <==> step.already || k < 4
  {
    BoundHasContent(s.disk, VAR);
    if !step.already {
      SnapshotKeepsVar(s.disk, root, k, v);
      if k >= 4 {
        StepDropsVar(s, root, step, k, v);
      }
    }
  }

  lemma StepDropsVar<C>(s: System<C>, root: string, step: Step<C>, k: nat, v: nat)
    requires Sane(s, root) && step.SeparateVar? && !step.already && IdOf(s.disk, VAR) == Some(v) && k >= 4
    ensures v !in AfterStep(s, root, step, k).disk.content
  {
    BoundHasContent(s.disk, VAR);
    SnapshotKeepsVar(s.disk, root, k, v);
    ReplaceDropsVar(VarSnapshot(s.disk, root, k), root, k, step.empty, step.copied, v);
  }

  lemma SnapshotKeepsVar<C>(d: Disk<C>, root: string, k: nat, v: nat)
    requires Workable(d, root) && IdOf(d, VAR) == Some(v) && v in d.content
    ensures var e := VarSnapshot(d, root, k);
      && Workable(e, root) && IdOf(e, VAR) == Some(v) && v in e.content && e.content[v] == d.content[v]
      && v < e.nextId
  {
    NamesDiffer(root);
    SnapshotStage(d, root, k);
    assert v !in IdsOf(d, {SnapName(root)});
  }

  lemma ReplaceDropsVar<C>(d: Disk<C>, root: string, k: nat, empty: C, copied: C, v: nat)
    requires Workable(d, root) && IdOf(d, VAR) == Some(v) && v < d.nextId && k >= 4
    ensures v !in VarReplaced(d, root, k, empty, copied).content
  {
    assert v in IdsOf(d, {VAR});
  }

  lemma FineRunLast<C>(m: Machine<C>, root: string, last: Turn<C>)
    requires Baseline(m, root) && Fine(last)
    ensures Run(m, root, [last]).passed == 1 && Run(m, root, [last]).machine.sys == Act(m, root, last).sys
  {
    FineRunCons(m, root, last, []);
    assert [last] + [] == [last];
  }

  lemma {:induction false} FineRunThen<C>(m: Machine<C>, root: string, turns: seq<Turn<C>>, last: Turn<C>)
    requires Baseline(m, root) && (forall t :: t in turns ==> Fine(t)) && Fine(last)
    ensures Run(m, root, turns + [last]).passed == |turns| + 1
    ensures Run(m, root, turns + [last]).machine.sys == Act(Run(m, root, turns).machine, root, last).sys
    decreases |turns|
  {
    if turns == [] {
      FineRunLast(m, root, last);
      assert turns + [last] == [last];
    } else {
      var t, rest := turns[0], turns[1..];
      assert t in turns;
      FineRunCons(m, root, t, rest);
      FineRunCons(m, root, t, rest + [last]);
      FineRunThen(Act(m, root, t).(gated := PLACES), root, rest, last);
      HeadOff(turns, last);
    }
  }

  lemma HeadOff<T>(s: seq<T>, last: T)
    requires s != []
    ensures s == [s[0]] + s[1..] && s + [last] == [s[0]] + (s[1..] + [last])
  {
  }

  lemma SeparationDropsVar<C>(m: Machine<C>, root: string, art: Art, empty: C, copied: C, id: nat)
    requires Sane(m.sys, root) && IdOf(m.sys.disk, VAR) == Some(id)
    ensures id !in Act(m, root, Well(SeparateVar(art, false, empty, copied))).sys.disk.content
  {
    StepDropsVar(m.sys, root, SeparateVar(art, false, empty, copied), 10, id);
  }

  lemma FineRunParts<C>(v: nat, empty: C, copied: C)
    ensures var turns := FineRun(v, false, empty, copied);
      && turns == turns[..9] + [Well(SeparateVar(Art(v, true), false, empty, copied))]
      && (forall t :: t in turns[..9] ==> Fine(t))
      && (forall i :: 0 <= i < 9 ==> !turns[..9][i].step.SeparateVar?)
  {
    FineRunIsFine(v, false, empty, copied);
  }

  /** Such a run passes all its gates, and the old content of "var" is gone. */
  lemma OldVarIsLost<C>(m: Machine<C>, root: string, v: nat, empty: C, copied: C, id: nat)
    requires Baseline(m, root) && IdOf(m.sys.disk, VAR) == Some(id)
    ensures var turns := FineRun(v, false, empty, copied);
      IsMigrate(turns) && Run(m, root, turns).passed == 10 && id !in Run(m, root, turns).machine.sys.disk.content
  {
    var front := FineRun(v, false, empty, copied)[..9];
    FineRunIsFine(v, false, empty, copied);
    FineRunParts(v, empty, copied);
    FineRunThen(m, root, front, Well(SeparateVar(Art(v, true), false, empty, copied)));
    RunKeepsSubvols(m, root, front);
    SeparationDropsVar(Run(m, root, front).machine, root, Art(v, true), empty, copied, id);
  }
}
