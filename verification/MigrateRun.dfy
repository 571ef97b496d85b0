/**
 The migrate command in the order it is written: each step works on the live system, the boot-chain
 gate comes after it, and the first failure ends the run. A step that replaces a file exchanges the
 new file in before the gate has seen it; the other steps change the system as they go.
 */
module MigrateRun {
  import opened Wrappers
  import opened Store

  /** The files that are replaced by exchange. */
  datatype Place = FstabFile | Initramfs | GrubCfg | EspCfg

  const PLACES: set<Place> := {FstabFile, Initramfs, GrubCfg, EspCfg}

  /** What a file holds, and whether the boot chain holds with it. */
  datatype Art = Art(version: nat, sound: bool)

  datatype Mount = Boot | Efi | OldBoot | Toplevel | Var

  /**
   The live files, the mount points, the kernel links at "/", which version of the boot files is on
   btrfs, whether the GRUB directory is NOCOW and grubenv fresh, and the subvolumes.
   */
  datatype System<C> = System(
    files: map<Place, Art>, mounts: set<Mount>, links: set<string>, bootCopy: Option<nat>,
    nocow: bool, grubenv: bool, disk: Disk<C>)

  /** The ten steps, each with what it finds or makes. */
  datatype Step<C> =
    | CopyBoot(version: nat)
    | MakeLinks(names: seq<string>)
    | SetDefault
    | SwitchBoot
    | NewFstab(art: Art)
    | NewInitramfs(art: Art)
    | NewGrubCfg(art: Art)
    | FixGrubenv
    | NewEsp(art: Art)
    | SeparateVar(art: Art, already: bool, empty: C, copied: C)

  /** A step stops with an error after so many of its changes, or makes all; late is an error even then. */
  datatype Outcome = Stops(changes: nat) | Finishes(late: bool)

  /** A step and its gate; elsewhere says that the rest of the boot chain holds at that gate. */
  datatype Turn<C> = Turn(step: Step<C>, outcome: Outcome, elsewhere: bool)

  // --- what each step changes, change by change ---

  /** The temporary snapshot of step 10. */
  function SnapName(root: string): string {
    root + ".var-snapshot"
  }

  const VAR := "var"

  /** The system is one the steps can work on; btrfs refuses to delete the mounted subvolume. */
  ghost predicate Sane<C>(s: System<C>, root: string) {
    s.files.Keys == PLACES && Workable(s.disk, root)
  }

  ghost predicate Workable<C>(d: Disk<C>, root: string) {
    && Valid(d) && IdOf(d, root).Some? && root != VAR
    && IdOf(d, SnapName(root)) != Some(d.mounted) && IdOf(d, VAR) != Some(d.mounted)
  }

  function Length<C>(step: Step<C>): nat {
    match step
    case CopyBoot(_) => 7
    case MakeLinks(names) => |names|
    case SwitchBoot => 3
    case FixGrubenv => 2
    case SeparateVar(_, _, _, _) => 10
    case _ => 1
  }

  function Changes<C>(t: Turn<C>): nat {
    match t.outcome
    case Finishes(_) => Length(t.step)
    case Stops(n) => if n < Length(t.step) then n else Length(t.step)
  }

  function Without(ms: set<Mount>, m: Mount, now: bool): set<Mount> {
    if now then ms - {m} else ms
  }

  function With(ms: set<Mount>, m: Mount, now: bool): set<Mount> {
    if now then ms + {m} else ms
  }

  /** Unmount both, mount the old one aside, copy, and put everything back. */
  function CopyMounts(ms: set<Mount>, k: nat): set<Mount> {
    var a := Without(Without(ms, Efi, k >= 1), Boot, k >= 2);
    var b := Without(With(a, OldBoot, k >= 3), OldBoot, k >= 5);
    With(With(b, Boot, k >= 6), Efi, k >= 7)
  }

  function SwitchMounts(ms: set<Mount>, k: nat): set<Mount> {
    With(Without(Without(ms, Efi, k >= 1), Boot, k >= 2), Efi, k >= 3)
  }

  function VarMounts(ms: set<Mount>, k: nat): set<Mount> {
    With(Without(With(ms, Toplevel, k >= 1), Toplevel, k >= 8), Var, k >= 10)
  }

  /** A stale snapshot goes, a new one is taken. */
  ghost function VarSnapshot<C>(d: Disk<C>, root: string, k: nat): (e: Disk<C>)
    requires Valid(d) && IdOf(d, root).Some?
  {
    if k < 2 then d
    else
      var cleared := Remove(d, {SnapName(root)});
      if k < 3 || IdOf(d, root).value !in cleared.content then cleared
      else Create(cleared, SnapName(root), IdOf(d, root).value)
  }

  function MakeVar<C>(d: Disk<C>, value: C): Disk<C> {
    d.(nodes := d.nodes[VAR := Subvol(d.nextId)], content := d.content[d.nextId := value], nextId := d.nextId + 1)
  }

  /** An existing var goes, a new one is made and filled, the snapshot goes. */
  ghost function VarReplaced<C>(d: Disk<C>, root: string, k: nat, empty: C, copied: C): Disk<C> {
    if k < 4 then d
    else if k < 5 then Remove(d, {VAR})
    else if k < 7 then MakeVar(Remove(d, {VAR}), if k < 6 then empty else copied)
    else Remove(MakeVar(Remove(d, {VAR}), copied), {SnapName(root)})
  }

  ghost function VarDisk<C>(d: Disk<C>, root: string, k: nat, empty: C, copied: C): Disk<C>
    requires Valid(d) && IdOf(d, root).Some?
  {
    VarReplaced(VarSnapshot(d, root, k), root, k, empty, copied)
  }

  ghost function AfterStep<C>(s: System<C>, root: string, step: Step<C>, k: nat): System<C>
    requires Sane(s, root)
  {
    match step
    case CopyBoot(version) =>
      if Boot !in s.mounts then s
      else s.(mounts := CopyMounts(s.mounts, k), bootCopy := if k >= 4 then Some(version) else s.bootCopy)
    case MakeLinks(names) =>
      s.(links := s.links + set i | 0 <= i < k && i < |names| :: names[i])
    case SetDefault =>
      if k >= 1 then s.(disk := s.disk.(defaultId := IdOf(s.disk, root).value)) else s
    case SwitchBoot =>
      if Boot !in s.mounts then s else s.(mounts := SwitchMounts(s.mounts, k))
    case NewFstab(art) => Replaced(s, FstabFile, art, k >= 1)
    case NewInitramfs(art) => Replaced(s, Initramfs, art, k >= 1)
    case NewGrubCfg(art) => Replaced(s, GrubCfg, art, k >= 1)
    case FixGrubenv => s.(nocow := s.nocow || k >= 1, grubenv := s.grubenv || k >= 2)
    case NewEsp(art) => Replaced(s, EspCfg, art, k >= 1)
    case SeparateVar(art, already, empty, copied) =>
      if already then s
      else
        Replaced(s.(mounts := VarMounts(s.mounts, k), disk := VarDisk(s.disk, root, k, empty, copied)),
                 FstabFile, art, k >= 9)
  }

  function Replaced<C>(s: System<C>, p: Place, art: Art, now: bool): System<C> {
    if now then s.(files := s.files[p := art]) else s
  }

  // --- exactly when a step leaves the system as it was ---

  /** What one could check before the step, for each number of changes it makes. */
  ghost predicate Harmless<C>(s: System<C>, root: string, step: Step<C>, k: nat) {
    k == 0 ||
    match step
    case CopyBoot(version) =>
      || Boot !in s.mounts
      || (k == 1 && Efi !in s.mounts)
      || (s.bootCopy == Some(version) && OldBoot !in s.mounts && k == if Efi in s.mounts then 7 else 6)
    case MakeLinks(names) => forall i :: 0 <= i < k && i < |names| ==> names[i] in s.links
    case SetDefault => RootIsDefault(s.disk, root)
    case SwitchBoot => Boot !in s.mounts || (k == 1 && Efi !in s.mounts)
    case NewFstab(art) => FstabFile in s.files && s.files[FstabFile] == art
    case NewInitramfs(art) => Initramfs in s.files && s.files[Initramfs] == art
    case NewGrubCfg(art) => GrubCfg in s.files && s.files[GrubCfg] == art
    case FixGrubenv => s.nocow && (k >= 2 ==> s.grubenv)
    case NewEsp(art) => EspCfg in s.files && s.files[EspCfg] == art
    case SeparateVar(_, already, _, _) =>
      already || (Toplevel in s.mounts && (k == 1 || (k == 2 && SnapName(root) !in s.disk.nodes)))
  }

  lemma CopyMountsExact(ms: set<Mount>, k: nat)
    requires Boot in ms && k <= 7
    ensures CopyMounts(ms, k) == ms
       <==> k == 0 || (k == 1 && Efi !in ms) || (OldBoot !in ms && k == if Efi in ms then 7 else 6)
  {
    var now := CopyMounts(ms, k);
    assert 2 <= k <= 5 ==> Boot !in now;
    assert 1 <= k <= 6 ==> Efi !in now;
    assert k >= 5 ==> OldBoot !in now;
    if k == 7 && Efi in ms && OldBoot !in ms {
      assert now == ms;
    }
  }

  lemma SwitchMountsExact(ms: set<Mount>, k: nat)
    requires Boot in ms
    ensures SwitchMounts(ms, k) == ms <==> k == 0 || (k == 1 && Efi !in ms)
  {
    assert k >= 2 ==> Boot !in SwitchMounts(ms, k);
    assert 1 <= k <= 2 ==> Efi !in SwitchMounts(ms, k);
  }

  lemma RootSurvivesSnapshot<C>(d: Disk<C>, root: string)
    requires Valid(d) && IdOf(d, root).Some?
    ensures IdOf(d, root).value in Remove(d, {SnapName(root)}).content
  {
    BoundHasContent(d, root);
    assert root != SnapName(root) by {
      assert |SnapName(root)| > |root|;
    }
  }

  /** Once the snapshot is taken an id has been given out. */
  lemma VarDiskExact<C>(d: Disk<C>, root: string, k: nat, empty: C, copied: C)
    requires Valid(d) && IdOf(d, root).Some?
    ensures VarDisk(d, root, k, empty, copied) == d <==> k <= 1 || (k == 2 && SnapName(root) !in d.nodes)
  {
    if k == 2 {
      assert SnapName(root) !in d.nodes ==> IdsOf(d, {SnapName(root)}) == {};
      assert SnapName(root) !in VarDisk(d, root, k, empty, copied).nodes;
    } else if k > 2 {
      RootSurvivesSnapshot(d, root);
      assert VarSnapshot(d, root, k).nextId == d.nextId + 1;
      assert VarDisk(d, root, k, empty, copied).nextId > d.nextId;
    }
  }

  lemma LinksExact(links: set<string>, names: seq<string>, k: nat)
    ensures links + (set i | 0 <= i < k && i < |names| :: names[i]) == links
       <==> forall i :: 0 <= i < k && i < |names| ==> names[i] in links
  {
    var more := set i | 0 <= i < k && i < |names| :: names[i];
    assert forall i :: 0 <= i < k && i < |names| ==> names[i] in more;
  }

  lemma VarMountsExact(ms: set<Mount>, k: nat)
    requires 1 <= k <= 2
    ensures VarMounts(ms, k) == ms <==> Toplevel in ms
  {
  }

  lemma SeparationExact<C>(s: System<C>, root: string, step: Step<C>, k: nat)
    requires Sane(s, root) && step.SeparateVar? && k <= Length(step)
    ensures AfterStep(s, root, step, k) == s <==> Harmless(s, root, step, k)
  {
    VarDiskExact(s.disk, root, k, step.empty, step.copied);
    if 1 <= k <= 2 {
      VarMountsExact(s.mounts, k);
    }
  }

  /** A step that makes k of its changes leaves the whole system as it was, exactly if they are harmless. */
  lemma StepUnchangedExactly<C>(s: System<C>, root: string, step: Step<C>, k: nat)
    requires Sane(s, root) && k <= Length(step)
    ensures AfterStep(s, root, step, k) == s <==> Harmless(s, root, step, k)
  {
    match step
    case CopyBoot(_) =>
      if Boot in s.mounts {
        CopyMountsExact(s.mounts, k);
      }
    case MakeLinks(names) => LinksExact(s.links, names, k);
    case SwitchBoot =>
      if Boot in s.mounts {
        SwitchMountsExact(s.mounts, k);
      }
    case SeparateVar(_, _, _, _) => SeparationExact(s, root, step, k);
    case _ =>
  }

  // --- the system stays one the steps can work on ---

  lemma NamesDiffer(root: string)
    ensures SnapName(root) != root && SnapName(root) != VAR
  {
    assert |SnapName(root)| > |root| && |SnapName(root)| > |VAR|;
  }

  lemma ClearKeepsWorkable<C>(d: Disk<C>, root: string, name: string)
    requires Workable(d, root) && (name == VAR || name == SnapName(root))
    ensures Workable(Remove(d, {name}), root) && IdOf(Remove(d, {name}), root) == IdOf(d, root)
  {
    NamesDiffer(root);
    RemoveKeepsValid(d, {name});
  }

  lemma SnapshotStage<C>(d: Disk<C>, root: string, k: nat)
    requires Workable(d, root)
    ensures Workable(VarSnapshot(d, root, k), root) && IdOf(VarSnapshot(d, root, k), root) == IdOf(d, root)
  {
    if k >= 2 {
      ClearKeepsWorkable(d, root, SnapName(root));
      if k >= 3 {
        NamesDiffer(root);
        RootSurvivesSnapshot(d, root);
        CreateKeepsValid(Remove(d, {SnapName(root)}), SnapName(root), IdOf(d, root).value);
      }
    }
  }

  /** A new subvolume under a free name, with any content. */
  lemma MakeKeepsWorkable<C>(d: Disk<C>, root: string, value: C)
    requires Workable(d, root) && VAR !in d.nodes
    ensures Workable(MakeVar(d, value), root) && IdOf(MakeVar(d, value), root) == IdOf(d, root)
  {
    NamesDiffer(root);
    var e := Create(d, VAR, d.mounted);
    CreateKeepsValid(d, VAR, d.mounted);
    assert Ids(e.(content := e.content[d.nextId := value])) == Ids(e);
    assert MakeVar(d, value) == e.(content := e.content[d.nextId := value]);
  }

  lemma ReplaceStage<C>(d: Disk<C>, root: string, k: nat, empty: C, copied: C)
    requires Workable(d, root)
    ensures Workable(VarReplaced(d, root, k, empty, copied), root)
    ensures IdOf(VarReplaced(d, root, k, empty, copied), root) == IdOf(d, root)
  {
    if k >= 4 {
      ClearKeepsWorkable(d, root, VAR);
      if k >= 5 {
        MakeKeepsWorkable(Remove(d, {VAR}), root, if k < 6 then empty else copied);
        if k >= 7 {
          ClearKeepsWorkable(MakeVar(Remove(d, {VAR}), copied), root, SnapName(root));
        }
      }
    }
  }

  lemma StepKeepsSane<C>(s: System<C>, root: string, step: Step<C>, k: nat)
    requires Sane(s, root)
    ensures Sane(AfterStep(s, root, step, k), root)
  {
    match step
    case SetDefault => DefaultKeepsWorkable(s.disk, root, IdOf(s.disk, root).value);
    case SeparateVar(_, _, empty, copied) =>
      VarDiskWorkable(s.disk, root, k, empty, copied);
    case _ =>
  }

  lemma DefaultKeepsWorkable<C>(d: Disk<C>, root: string, id: nat)
    requires Workable(d, root)
    ensures Workable(d.(defaultId := id), root)
  {
    assert Ids(d.(defaultId := id)) == Ids(d);
  }

  lemma VarDiskWorkable<C>(d: Disk<C>, root: string, k: nat, empty: C, copied: C)
    requires Workable(d, root)
    ensures Workable(VarDisk(d, root, k, empty, copied), root)
  {
    SnapshotStage(d, root, k);
    ReplaceStage(VarSnapshot(d, root, k), root, k, empty, copied);
  }

  // --- the run ---

  /** The system, the places whose live file a gate has passed, and the files kept beside the live ones. */
  datatype Machine<C> = Machine(sys: System<C>, gated: set<Place>, spares: map<Place, Art>)

  function PlaceOf<C>(step: Step<C>): Option<Place> {
    match step
    case NewFstab(_) => Some(FstabFile)
    case NewInitramfs(_) => Some(Initramfs)
    case NewGrubCfg(_) => Some(GrubCfg)
    case NewEsp(_) => Some(EspCfg)
    case SeparateVar(_, already, _, _) => if already then None else Some(FstabFile)
    case _ => None
  }

  function ArtOf<C>(step: Step<C>): Option<Art> {
    match step
    case NewFstab(art) => Some(art)
    case NewInitramfs(art) => Some(art)
    case NewGrubCfg(art) => Some(art)
    case NewEsp(art) => Some(art)
    case SeparateVar(art, already, _, _) => if already then None else Some(art)
    case _ => None
  }

  /** The step gets to its exchange: the only change of the file steps, the ninth of step 10. */
  predicate Exchanges<C>(t: Turn<C>) {
    PlaceOf(t.step).Some? && Changes(t) >= if t.step.SeparateVar? then 9 else 1
  }

  predicate StepFails<C>(t: Turn<C>) {
    t.outcome.Stops? || t.outcome.late
  }

  ghost predicate AllSound<C>(s: System<C>) {
    forall p :: p in s.files ==> s.files[p].sound
  }

  ghost function Act<C>(m: Machine<C>, root: string, t: Turn<C>): (r: Machine<C>)
    requires Sane(m.sys, root)
    ensures Sane(r.sys, root)
  {
    StepKeepsSane(m.sys, root, t.step, Changes(t));
    var after := AfterStep(m.sys, root, t.step, Changes(t));
    if Exchanges(t) then
      var p := PlaceOf(t.step).value;
      Machine(after, m.gated - {p}, m.spares[p := m.sys.files[p]])
    else m.(sys := after)
  }

  ghost predicate Passes<C>(m: Machine<C>, root: string, t: Turn<C>)
    requires Sane(m.sys, root)
  {
    !StepFails(t) && AllSound(Act(m, root, t).sys) && t.elsewhere
  }

  /** The machine when the run ends, and how many turns it has passed. */
  datatype End<C> = End(machine: Machine<C>, passed: nat)

  ghost function Run<C>(m: Machine<C>, root: string, turns: seq<Turn<C>>): (e: End<C>)
    requires Sane(m.sys, root)
    ensures Sane(e.machine.sys, root)
    decreases |turns|
  {
    if turns == [] then End(m, 0)
    else if !Passes(m, root, turns[0]) then End(Act(m, root, turns[0]), 0)
    else
      var rest := Run(Act(m, root, turns[0]).(gated := PLACES), root, turns[1..]);
      End(rest.machine, rest.passed + 1)
  }

  // --- where a run stops, from its turns alone ---

  /** The step does not fail, the file it brings in is sound, and the rest of the chain holds at its gate. */
  predicate Fine<C>(t: Turn<C>) {
    t.elsewhere && !StepFails(t) && (ArtOf(t.step).Some? ==> ArtOf(t.step).value.sound)
  }

  ghost predicate FirstBad<C>(turns: seq<Turn<C>>, k: nat) {
    k < |turns| && !Fine(turns[k]) && forall j :: 0 <= j < k ==> Fine(turns[j])
  }

  /** The first gate has passed: everything live is sound and verified. */
  ghost predicate Baseline<C>(m: Machine<C>, root: string) {
    Sane(m.sys, root) && AllSound(m.sys) && m.gated == PLACES
  }

  /** Which file a step has replaced after k changes, and with what. */
  lemma FilesAfterStep<C>(s: System<C>, root: string, step: Step<C>, k: nat)
    requires Sane(s, root)
    ensures PlaceOf(step).Some? <==> ArtOf(step).Some?
    ensures AfterStep(s, root, step, k).files
      == if PlaceOf(step).Some? && k >= (if step.SeparateVar? then 9 else 1)
         then s.files[PlaceOf(step).value := ArtOf(step).value] else s.files
  {
    match step
    case CopyBoot(_) => case MakeLinks(_) => case SetDefault => case SwitchBoot => case FixGrubenv =>
    case NewFstab(_) => case NewInitramfs(_) => case NewGrubCfg(_) => case NewEsp(_) =>
    case SeparateVar(_, _, _, _) =>
  }

  lemma FilesAfter<C>(s: System<C>, root: string, t: Turn<C>)
    requires Sane(s, root)
    ensures PlaceOf(t.step).Some? <==> ArtOf(t.step).Some?
    ensures AfterStep(s, root, t.step, Changes(t)).files
      == if Exchanges(t) then s.files[PlaceOf(t.step).value := ArtOf(t.step).value] else s.files
  {
    FilesAfterStep(s, root, t.step, Changes(t));
  }

  /** On sound files the gate passes exactly after a fine turn. */
  lemma FinePasses<C>(m: Machine<C>, root: string, t: Turn<C>)
    requires Baseline(m, root)
    ensures Passes(m, root, t) <==> Fine(t)
    ensures AllSound(Act(m, root, t).sys) <==> (Exchanges(t) ==> ArtOf(t.step).value.sound)
    ensures Act(m, root, t).gated == PLACES <==> !Exchanges(t)
  {
    FilesAfter(m.sys, root, t);
    if Exchanges(t) {
      assert Act(m, root, t).sys.files[PlaceOf(t.step).value] == ArtOf(t.step).value;
      assert PlaceOf(t.step).value in PLACES;
    }
  }

  lemma FineKeepsBaseline<C>(m: Machine<C>, root: string, t: Turn<C>)
    requires Baseline(m, root) && Fine(t)
    ensures Baseline(Act(m, root, t).(gated := PLACES), root)
  {
    FinePasses(m, root, t);
  }

  lemma FirstBadShifts<C>(turns: seq<Turn<C>>, k: nat)
    requires turns != [] && Fine(turns[0])
    ensures FirstBad(turns, k) <==> k > 0 && FirstBad(turns[1..], k - 1)
  {
  }

  /**
   The run stops in the first turn that is not fine, in the state which the turns before it and this
   turn's changes give.
   */
  lemma {:induction false} RunStopsAtFirstBad<C>(m: Machine<C>, root: string, turns: seq<Turn<C>>, k: nat)
    requires Baseline(m, root) && FirstBad(turns, k)
    ensures var before := Run(m, root, turns[..k]);
      && before.passed == k && Baseline(before.machine, root)
      && Run(m, root, turns) == End(Act(before.machine, root, turns[k]), k)
    decreases k
  {
    FinePasses(m, root, turns[0]);
    if k == 0 {
      assert turns[..0] == [];
    } else {
      FirstBadShifts(turns, k);
      FineKeepsBaseline(m, root, turns[0]);
      assert turns[..k][1..] == turns[1..][..k - 1] && turns[..k][0] == turns[0];
      RunStopsAtFirstBad(Act(m, root, turns[0]).(gated := PLACES), root, turns[1..], k - 1);
    }
  }

  lemma FineRunCons<C>(m: Machine<C>, root: string, t: Turn<C>, rest: seq<Turn<C>>)
    requires Baseline(m, root) && Fine(t)
    ensures var next := Act(m, root, t).(gated := PLACES);
      && Baseline(next, root)
      && Run(m, root, [t] + rest).machine == Run(next, root, rest).machine
      && Run(m, root, [t] + rest).passed == Run(next, root, rest).passed + 1
  {
    FinePasses(m, root, t);
    FineKeepsBaseline(m, root, t);
    assert ([t] + rest)[1..] == rest;
  }

  lemma {:induction false} FineRunCompletes<C>(m: Machine<C>, root: string, turns: seq<Turn<C>>)
    requires Baseline(m, root) && forall t :: t in turns ==> Fine(t)
    ensures Run(m, root, turns).passed == |turns| && Baseline(Run(m, root, turns).machine, root)
    decreases |turns|
  {
    if turns != [] {
      assert turns[0] in turns;
      FinePasses(m, root, turns[0]);
      FineKeepsBaseline(m, root, turns[0]);
      FineRunCompletes(Act(m, root, turns[0]).(gated := PLACES), root, turns[1..]);
    }
  }

  lemma FineOrFirstBad<C>(turns: seq<Turn<C>>) returns (k: nat)
    ensures k <= |turns| && (k == |turns| ==> forall t :: t in turns ==> Fine(t))
    ensures k < |turns| ==> FirstBad(turns, k)
  {
    k := 0;
    while k < |turns| && Fine(turns[k])
      invariant k <= |turns|
      invariant forall j :: 0 <= j < k ==> Fine(turns[j])
    {
      k := k + 1;
    }
  }

  /**
   A file no gate has passed is live at the end of the command if and only if the first turn that is
   not fine makes its exchange.
   */
  lemma UnverifiedLiveExactly<C>(m: Machine<C>, root: string, turns: seq<Turn<C>>)
    requires Baseline(m, root)
    ensures Run(m, root, turns).machine.gated != PLACES
       <==> exists k: nat :: FirstBad(turns, k) && Exchanges(turns[k])
  {
    var k := FineOrFirstBad(turns);
    if k == |turns| {
      FineRunCompletes(m, root, turns);
      assert forall j: nat :: j < |turns| ==> turns[j] in turns;
    } else {
      RunStopsAtFirstBad(m, root, turns, k);
      FinePasses(Run(m, root, turns[..k]).machine, root, turns[k]);
      assert forall j: nat :: FirstBad(turns, j) ==> j == k;
    }
  }

  /** It breaks the boot chain if and only if that turn exchanges in an unsound file. */
  lemma UnsoundLiveExactly<C>(m: Machine<C>, root: string, turns: seq<Turn<C>>)
    requires Baseline(m, root)
    ensures !AllSound(Run(m, root, turns).machine.sys)
       <==> exists k: nat :: FirstBad(turns, k) && Exchanges(turns[k]) && !ArtOf(turns[k].step).value.sound
  {
    var k := FineOrFirstBad(turns);
    if k == |turns| {
      FineRunCompletes(m, root, turns);
      assert forall j: nat :: j < |turns| ==> turns[j] in turns;
    } else {
      RunStopsAtFirstBad(m, root, turns, k);
      FinePasses(Run(m, root, turns[..k]).machine, root, turns[k]);
      assert forall j: nat :: FirstBad(turns, j) ==> j == k;
    }
  }

  /**
   A failing step leaves the whole system as it was before the step, exactly if the changes it makes
   until then are harmless there; what an exchange took out is kept beside the new file.
   */
  lemma FailureLeavesUnchangedExactly<C>(m: Machine<C>, root: string, turns: seq<Turn<C>>, k: nat)
    requires Baseline(m, root) && FirstBad(turns, k)
    ensures var before, after := Run(m, root, turns[..k]).machine, Run(m, root, turns).machine;
      && (after.sys == before.sys <==> Harmless(before.sys, root, turns[k].step, Changes(turns[k])))
      && (Exchanges(turns[k]) ==>
            var p := PlaceOf(turns[k].step).value;
            p in before.sys.files && p in after.spares && after.spares[p] == before.sys.files[p])
  {
    RunStopsAtFirstBad(m, root, turns, k);
    ActUnchangedExactly(Run(m, root, turns[..k]).machine, root, turns[k]);
  }

  lemma ActUnchangedExactly<C>(m: Machine<C>, root: string, t: Turn<C>)
    requires Baseline(m, root)
    ensures Act(m, root, t).sys == m.sys <==> Harmless(m.sys, root, t.step, Changes(t))
    ensures Exchanges(t) ==>
      var p := PlaceOf(t.step).value;
      p in m.sys.files && p in Act(m, root, t).spares && Act(m, root, t).spares[p] == m.sys.files[p]
  {
    StepUnchangedExactly(m.sys, root, t.step, Changes(t));
  }
}
