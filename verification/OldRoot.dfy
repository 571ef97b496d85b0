/** What becomes of the old root after a rollback to an automatic snapshot: it is one itself. */
module OldRoot {
  import opened Wrappers
  import opened Verdict
  import opened Store
  import opened AutoName
  import opened Retention
  import opened SubvolList
  import opened Operations
  import opened Rollbacks
  import opened NamespaceRuns
  import opened Snapshots

  /** A completed rollback to an unprotected automatic snapshot. */
  ghost predicate RollsToAuto<C>(d: Disk<C>, conf: Conf, name: string, env: RollbackEnv) {
    && Completes(d, conf, name, env) && IdOf(d, conf.root.value).Some?
    && IsAutoName(name) && name !in conf.protected
  }

  /** The disk after that rollback and a reboot. */
  ghost function Rebooted<C>(d: Disk<C>, conf: Conf, name: string, env: RollbackEnv): Disk<C> {
    RebootDisk(RollbackDisk(d, conf, name, env), conf)
  }

  ghost function OldRootEntry<C>(d: Disk<C>, conf: Conf, name: string): Entry
    requires conf.root.Some? && IdOf(d, conf.root.value).Some?
  {
    Entry(IdOf(d, conf.root.value).value, name)
  }

  /** The old root is an automatic snapshot now, and nothing protects it. */
  lemma OldRootIsAuto<C>(d: Disk<C>, conf: Conf, name: string, env: RollbackEnv)
    requires Valid(d) && ProtectsRoot(conf) && RollsToAuto(d, conf, name, env)
    ensures var after := Rebooted(d, conf, name, env);
      && Valid(after) && OldRootEntry(d, conf, name) in Autos(after, conf.protected)
      && OldRootEntry(d, conf, name).id !in Busy(after)
  {
    RollbackKeepsValid(d, conf, name, env);
    RebootKeepsValid(RollbackDisk(d, conf, name, env), conf);
    AutosAreListed(Rebooted(d, conf, name, env), conf.protected, OldRootEntry(d, conf, name));
  }

  lemma AutosAfterCreate<C>(d: Disk<C>, conf: Conf, now: Time, env: SnapshotEnv)
    requires Valid(d) && Creates(d, conf, None, now, env)
    ensures var n := Entry(d.nextId, GenerateAutoName(now));
      Autos(AfterCreate(d, conf, None, now, env), conf.protected)
      == Autos(d, conf.protected) + if Evictable(n, conf.protected) then {n} else {}
  {
    var f, n := AfterCreate(d, conf, None, now, env), Entry(d.nextId, GenerateAutoName(now));
    forall x: Entry
      ensures x in Autos(f, conf.protected)
         <==> x in Autos(d, conf.protected) || (x == n && Evictable(n, conf.protected))
    {
      AutosAreListed(d, conf.protected, x);
      AutosAreListed(f, conf.protected, x);
    }
  }

  /** A new automatic snapshot is younger than all others. */
  lemma YoungerByOne<C>(d: Disk<C>, conf: Conf, now: Time, env: SnapshotEnv, e: Entry)
    requires Valid(d) && Creates(d, conf, None, now, env) && e in Autos(d, conf.protected)
    ensures var f, n := AfterCreate(d, conf, None, now, env), Entry(d.nextId, GenerateAutoName(now));
      && e in Autos(f, conf.protected) && Busy(f) == Busy(d)
      && |Younger(Autos(f, conf.protected), e)|
         == |Younger(Autos(d, conf.protected), e)| + if Evictable(n, conf.protected) then 1 else 0
  {
    var f, n := AfterCreate(d, conf, None, now, env), Entry(d.nextId, GenerateAutoName(now));
    BoundIdsBelow(d);
    AutosAfterCreate(d, conf, now, env);
    AutosAreListed(d, conf.protected, e);
    AutosAreListed(d, conf.protected, n);
    var older := Younger(Autos(d, conf.protected), e);
    assert n !in older;
    assert Younger(Autos(f, conf.protected), e) == older + if Evictable(n, conf.protected) then {n} else {};
  }

  /** Which automatic snapshot retention takes: exactly one with enough younger ones. */
  lemma TakenExactly<C>(d: Disk<C>, protected: seq<string>, max: nat, stuck: set<nat>, e: Entry)
    requires Valid(d) && max >= 1 && e in Autos(d, protected) && e.id !in stuck
    ensures var after := Retained(d, protected, max, stuck);
      && (e.path in after.nodes <==> |Younger(Autos(d, protected), e)| < max)
      && (e.path !in after.nodes ==> e.id !in after.content)
  {
    AutosAreListed(d, protected, e);
    OnlyVictimsGo(d, protected, max, stuck, e.path);
    var gone := Removable(Victims(Autos(d, protected), max), stuck);
    if |Younger(Autos(d, protected), e)| >= max {
      assert e in gone;
      assert e.path in Paths(gone);
      assert e.id in IdsOf(d, Paths(gone));
    }
  }

  /** How many automatic snapshots are younger than e once the next one is taken. */
  ghost function YoungerThen<C>(d: Disk<C>, conf: Conf, now: Time, e: Entry): nat {
    |Younger(Autos(d, conf.protected), e)|
    + if Evictable(Entry(d.nextId, GenerateAutoName(now)), conf.protected) then 1 else 0
  }

  /** An automatic snapshot with retention whose limit is not 0. */
  ghost predicate TakesAutomatic<C>(d: Disk<C>, conf: Conf, now: Time, env: SnapshotEnv) {
    Creates(d, conf, None, now, env) && Retains(None, env) && env.max >= 1
  }

  /** The snapshot is still there if and only if stays; otherwise its content is gone too. */
  ghost predicate StaysIff<C>(end: Disk<C>, e: Entry, stays: bool) {
    (e.path in end.nodes <==> stays) && (!stays ==> e.id !in end.content)
  }

  /** What the next automatic snapshot does to one that can be deleted. */
  lemma NextAutomaticTakes<C>(d: Disk<C>, conf: Conf, now: Time, env: SnapshotEnv, e: Entry)
    requires Valid(d) && TakesAutomatic(d, conf, now, env)
    requires e in Autos(d, conf.protected) && e.id !in env.stuck + Busy(d)
    ensures StaysIff(SnapshotDisk(d, conf, None, now, env), e, YoungerThen(d, conf, now, e) < env.max)
  {
    YoungerByOne(d, conf, now, env, e);
    var f := AfterCreate(d, conf, None, now, env);
    BoundHasContent(d, conf.root.value);
    CreateKeepsValid(d, GenerateAutoName(now), IdOf(d, conf.root.value).value);
    TakenExactly(f, conf.protected, env.max, env.stuck + Busy(f), e);
  }

  /** Roll back to name, reboot, and take the next automatic snapshot. */
  ghost function NextRound<C>(
    d: Disk<C>, conf: Conf, name: string, renv: RollbackEnv, now: Time, senv: SnapshotEnv): Disk<C>
    requires Valid(d)
  {
    Run(d, conf, [Rollback(name, renv), Reboot, Snapshot(None, now, senv)])
  }

  lemma NextRoundIs<C>(d: Disk<C>, conf: Conf, name: string, renv: RollbackEnv, now: Time, senv: SnapshotEnv)
    requires Valid(d) && Valid(Rebooted(d, conf, name, renv))
    ensures NextRound(d, conf, name, renv, now, senv)
      == SnapshotDisk(Rebooted(d, conf, name, renv), conf, None, now, senv)
  {
    RunOfThree(d, conf, Rollback(name, renv), Reboot, Snapshot(None, now, senv));
  }

  /**
   What the next automatic snapshot does to the old root, whatever its id: with its deletion
   possible, it stays if and only if, the new snapshot included, fewer than max are younger.
   */
  lemma OldRootEvicted<C>(d: Disk<C>, conf: Conf, name: string, renv: RollbackEnv, now: Time, senv: SnapshotEnv)
    requires Valid(d) && ProtectsRoot(conf) && RollsToAuto(d, conf, name, renv)
    requires TakesAutomatic(Rebooted(d, conf, name, renv), conf, now, senv)
    requires OldRootEntry(d, conf, name).id !in senv.stuck
    ensures var oldRoot := OldRootEntry(d, conf, name);
      StaysIff(NextRound(d, conf, name, renv, now, senv), oldRoot,
               YoungerThen(Rebooted(d, conf, name, renv), conf, now, oldRoot) < senv.max)
  {
    OldRootIsAuto(d, conf, name, renv);
    NextAutomaticTakes(Rebooted(d, conf, name, renv), conf, now, senv, OldRootEntry(d, conf, name));
    NextRoundIs(d, conf, name, renv, now, senv);
  }

  lemma RunCons<C>(d: Disk<C>, conf: Conf, e: Event<C>, es: seq<Event<C>>)
    requires Valid(d)
    ensures Run(d, conf, [e] + es) == Run(Next(d, conf, e), conf, es)
  {
    assert ([e] + es)[1..] == es;
  }

  lemma RunOfThree<C>(d: Disk<C>, conf: Conf, a: Event<C>, b: Event<C>, c: Event<C>)
    requires Valid(d)
    ensures Run(d, conf, [a, b, c]) == Next(Next(Next(d, conf, a), conf, b), conf, c)
  {
    RunCons(d, conf, a, [b, c]);
    RunOfTwo(Next(d, conf, a), conf, b, c);
    assert [a, b, c] == [a] + [b, c];
  }

  lemma RunOfTwo<C>(d: Disk<C>, conf: Conf, b: Event<C>, c: Event<C>)
    requires Valid(d)
    ensures Run(d, conf, [b, c]) == Next(Next(d, conf, b), conf, c)
  {
    RunCons(d, conf, b, [c]);
    RunCons(Next(d, conf, b), conf, c, []);
    assert [b, c] == [b] + [c] && [c] == [c] + [];
  }

  /** With the lowest id it is the first to go: already at max automatic snapshots it is lost. */
  lemma OldRootGoesFirst<C>(d: Disk<C>, conf: Conf, name: string, renv: RollbackEnv, now: Time, senv: SnapshotEnv)
    requires Valid(d) && ProtectsRoot(conf) && RollsToAuto(d, conf, name, renv)
    requires TakesAutomatic(Rebooted(d, conf, name, renv), conf, now, senv)
    requires OldRootEntry(d, conf, name).id !in senv.stuck
    requires IsAutoName(GenerateAutoName(now)) && GenerateAutoName(now) !in conf.protected
    requires forall a :: a in Autos(d, conf.protected) ==> a.id > OldRootEntry(d, conf, name).id
    ensures StaysIff(NextRound(d, conf, name, renv, now, senv), OldRootEntry(d, conf, name),
                     |Autos(Rebooted(d, conf, name, renv), conf.protected)| < senv.max)
  {
    var oldRoot, after := OldRootEntry(d, conf, name), Rebooted(d, conf, name, renv);
    assert YoungerThen(after, conf, now, oldRoot) == |Autos(after, conf.protected)| by {
      AllYounger(d, conf, name, renv);
    }
    OldRootEvicted(d, conf, name, renv, now, senv);
    SameCount(NextRound(d, conf, name, renv, now, senv), oldRoot,
              YoungerThen(after, conf, now, oldRoot) < senv.max, |Autos(after, conf.protected)| < senv.max);
  }

  lemma SameCount<C>(end: Disk<C>, e: Entry, a: bool, b: bool)
    requires StaysIff(end, e, a) && a == b
    ensures StaysIff(end, e, b)
  {
  }

  lemma AllYounger<C>(d: Disk<C>, conf: Conf, name: string, env: RollbackEnv)
    requires Valid(d) && ProtectsRoot(conf) && RollsToAuto(d, conf, name, env)
    requires forall a :: a in Autos(d, conf.protected) ==> a.id > OldRootEntry(d, conf, name).id
    ensures var autos := Autos(Rebooted(d, conf, name, env), conf.protected);
      |Younger(autos, OldRootEntry(d, conf, name))| == |autos| - 1
  {
    var oldRoot, after := OldRootEntry(d, conf, name), Rebooted(d, conf, name, env);
    var autos := Autos(after, conf.protected);
    OldRootIsAuto(d, conf, name, env);
    forall a | a in autos
      ensures a == oldRoot || a.id > oldRoot.id
    {
      AutosAreListed(after, conf.protected, a);
      AutosAreListed(d, conf.protected, a);
    }
    assert Younger(autos, oldRoot) == autos - {oldRoot};
  }

  // --- a run in which the old root is lost ---

  const ALL_WELL := RollbackEnv(true, true, Pass, true, true, true, true, true, true)
  const LIMIT_ONE := SnapshotEnv(true, true, true, true, 1, true, true, {})

  lemma TwoSubvolsRoll<C>(root: string, snapshot: string, before: C, current: C)
    requires IsAutoName(snapshot) && !IsAutoName(root)
    ensures var d, conf := TwoSubvols(root, snapshot, before, current), Conf(true, Some(root), [root]);
      Valid(d) && RootIsDefault(d, root) && ProtectsRoot(conf) && RollsToAuto(d, conf, snapshot, ALL_WELL)
  {
    TwoSubvolsValid(root, snapshot, before, current);
  }

  lemma TwoSubvolsTake<C>(root: string, snapshot: string, before: C, current: C, now: Time)
    requires IsAutoName(snapshot) && IsAutoName(GenerateAutoName(now))
    requires !IsAutoName(root) && GenerateAutoName(now) != snapshot
    ensures var d, conf := TwoSubvols(root, snapshot, before, current), Conf(true, Some(root), [root]);
      && TakesAutomatic(Rebooted(d, conf, snapshot, ALL_WELL), conf, now, LIMIT_ONE)
      && OldRootEntry(d, conf, snapshot) == Entry(256, snapshot)
      && YoungerThen(Rebooted(d, conf, snapshot, ALL_WELL), conf, now, OldRootEntry(d, conf, snapshot)) >= 1
  {
  }

  /**
   With a limit of one: after a rollback to the only automatic snapshot and a reboot, the next
   automatic snapshot deletes the old root. Everything succeeds.
   */
  lemma OldRootIsLost<C>(root: string, snapshot: string, before: C, current: C, now: Time)
    requires IsAutoName(snapshot) && IsAutoName(GenerateAutoName(now))
    requires !IsAutoName(root) && GenerateAutoName(now) != snapshot
    ensures var d, conf := TwoSubvols(root, snapshot, before, current), Conf(true, Some(root), [root]);
      && Valid(d) && RootIsDefault(d, root) && Completes(d, conf, snapshot, ALL_WELL)
      && var end := NextRound(d, conf, snapshot, ALL_WELL, now, LIMIT_ONE);
      snapshot !in end.nodes && 256 !in end.content
  {
    var d, conf := TwoSubvols(root, snapshot, before, current), Conf(true, Some(root), [root]);
    TwoSubvolsRoll(root, snapshot, before, current);
    TwoSubvolsTake(root, snapshot, before, current, now);
    OldRootEvicted(d, conf, snapshot, ALL_WELL, now, LIMIT_ONE);
  }
}
