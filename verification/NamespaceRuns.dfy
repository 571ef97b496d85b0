/** Runs of snapshot, delete and rollback, interleaved with writes and reboots, under one fstab. */
module NamespaceRuns {
  import opened Wrappers
  import opened Store
  import opened AutoName
  import opened Retention
  import opened Operations
  import opened Rollbacks

  datatype Event<C> =
    | Snapshot(request: Option<string>, now: Time, senv: SnapshotEnv)
    | Delete(name: string, denv: DeleteEnv)
    | Rollback(name: string, renv: RollbackEnv)
    | Write(value: C)
    | Reboot

  lemma DeleteKeepsValid<C>(d: Disk<C>, conf: Conf, name: string, env: DeleteEnv)
    requires Valid(d)
    ensures Valid(DeleteDisk(d, conf, name, env))
  {
    if Deletes(d, conf, name, env) {
      assert IdsOf(d, {name}) == {IdOf(d, name).value};
      RemoveKeepsValid(d, {name});
    }
  }

  lemma SnapshotKeepsValid<C>(d: Disk<C>, conf: Conf, request: Option<string>, now: Time, env: SnapshotEnv)
    requires Valid(d)
    ensures Valid(SnapshotDisk(d, conf, request, now, env))
  {
    if Creates(d, conf, request, now, env) {
      BoundHasContent(d, conf.root.value);
      CreateKeepsValid(d, SnapshotName(request, now), IdOf(d, conf.root.value).value);
      var e := AfterCreate(d, conf, request, now, env);
      RetentionKeepsValid(e, conf.protected, env.max, env.stuck + Busy(e));
    }
  }

  /** Only the mounted subvolume is written to. */
  ghost function WriteDisk<C>(d: Disk<C>, value: C): Disk<C> {
    d.(content := d.content[d.mounted := value])
  }

  /** The kernel mounts the root subvolume by its name. */
  ghost function RebootDisk<C>(d: Disk<C>, conf: Conf): Disk<C> {
    if conf.root.Some? && IdOf(d, conf.root.value).Some? then d.(mounted := IdOf(d, conf.root.value).value) else d
  }

  lemma WriteKeepsValid<C>(d: Disk<C>, value: C)
    requires Valid(d)
    ensures Valid(WriteDisk(d, value))
  {
  }

  lemma RebootKeepsValid<C>(d: Disk<C>, conf: Conf)
    requires Valid(d)
    ensures Valid(RebootDisk(d, conf))
  {
  }

  ghost function Next<C>(d: Disk<C>, conf: Conf, e: Event<C>): (r: Disk<C>)
    requires Valid(d)
    ensures Valid(r)
  {
    match e
    case Snapshot(request, now, env) =>
      SnapshotKeepsValid(d, conf, request, now, env);
      SnapshotDisk(d, conf, request, now, env)
    case Delete(name, env) =>
      DeleteKeepsValid(d, conf, name, env);
      DeleteDisk(d, conf, name, env)
    case Rollback(name, env) =>
      RollbackKeepsValid(d, conf, name, env);
      RollbackDisk(d, conf, name, env)
    case Write(value) =>
      WriteKeepsValid(d, value);
      WriteDisk(d, value)
    case Reboot =>
      RebootKeepsValid(d, conf);
      RebootDisk(d, conf)
  }

  ghost function Run<C>(d: Disk<C>, conf: Conf, es: seq<Event<C>>): (r: Disk<C>)
    requires Valid(d)
    ensures Valid(r)
    decreases |es|
  {
    if es == [] then d else Run(Next(d, conf, es[0]), conf, es[1..])
  }

  // --- what every run keeps ---

  /** Ids of b come from a, or were given out after a. */
  ghost predicate NeverReused<C>(a: Disk<C>, b: Disk<C>) {
    a.nextId <= b.nextId && forall i :: i in b.content ==> i in a.content || i >= a.nextId
  }

  ghost predicate StayBound<C>(a: Disk<C>, b: Disk<C>, names: seq<string>) {
    forall n :: n in names && n in a.nodes ==> n in b.nodes
  }

  predicate NotDeleted<C>(es: seq<Event<C>>, name: string) {
    forall i :: 0 <= i < |es| ==> !(es[i].Delete? && es[i].name == name)
  }

  predicate UndoWorks<C>(e: Event<C>) {
    e.Rollback? ==> e.renv.undo
  }

  lemma NextNeverReuses<C>(d: Disk<C>, conf: Conf, e: Event<C>)
    requires Valid(d)
    ensures NeverReused(d, Next(d, conf, e))
  {
  }

  /** Fstab-named subvolumes, and names a user chose and nobody deletes, stay. */
  lemma NextStaysBound<C>(d: Disk<C>, conf: Conf, e: Event<C>, name: string)
    requires Valid(d) && name in d.nodes
    requires name in conf.protected || (!IsAutoName(name) && !(e.Delete? && e.name == name))
    ensures name in Next(d, conf, e).nodes
  {
  }

  lemma NextKeepsDefault<C>(d: Disk<C>, conf: Conf, e: Event<C>)
    requires Valid(d) && ProtectsRoot(conf) && conf.root.Some?
    requires RootIsDefault(d, conf.root.value) && UndoWorks(e)
    ensures RootIsDefault(Next(d, conf, e), conf.root.value)
  {
  }

  /** What holds of the disk at the end of any run, relative to its start. */
  ghost predicate Kept<C>(a: Disk<C>, conf: Conf, es: seq<Event<C>>, b: Disk<C>) {
    && Valid(b) && NeverReused(a, b) && StayBound(a, b, conf.protected)
    && (forall n :: n in a.nodes && !IsAutoName(n) && NotDeleted(es, n) ==> n in b.nodes)
    && (conf.root.Some? && RootIsDefault(a, conf.root.value) && (forall e :: e in es ==> UndoWorks(e)) ==>
          RootIsDefault(b, conf.root.value))
  }

  lemma {:induction false} RunNeverReuses<C>(d: Disk<C>, conf: Conf, es: seq<Event<C>>)
    requires Valid(d)
    ensures NeverReused(d, Run(d, conf, es))
    decreases |es|
  {
    if es != [] {
      NextNeverReuses(d, conf, es[0]);
      RunNeverReuses(Next(d, conf, es[0]), conf, es[1..]);
    }
  }

  lemma {:induction false} RunStaysBound<C>(d: Disk<C>, conf: Conf, es: seq<Event<C>>, name: string)
    requires Valid(d) && name in d.nodes
    requires name in conf.protected || (!IsAutoName(name) && NotDeleted(es, name))
    ensures name in Run(d, conf, es).nodes
    decreases |es|
  {
    if es != [] {
      NextStaysBound(d, conf, es[0], name);
      RunStaysBound(Next(d, conf, es[0]), conf, es[1..], name);
    }
  }

  lemma {:induction false} RunKeepsDefault<C>(d: Disk<C>, conf: Conf, es: seq<Event<C>>)
    requires Valid(d) && ProtectsRoot(conf) && conf.root.Some?
    requires RootIsDefault(d, conf.root.value) && forall e :: e in es ==> UndoWorks(e)
    ensures RootIsDefault(Run(d, conf, es), conf.root.value)
    decreases |es|
  {
    if es != [] {
      NextKeepsDefault(d, conf, es[0]);
      RunKeepsDefault(Next(d, conf, es[0]), conf, es[1..]);
    }
  }

  /** The namespace invariant over every run, for the configuration any fstab gives. */
  lemma NamespaceInvariant<C>(fstab: string, d: Disk<C>, es: seq<Event<C>>)
    requires Valid(d)
    ensures Kept(d, ConfOf(fstab), es, Run(d, ConfOf(fstab), es))
  {
    var conf := ConfOf(fstab);
    FstabProtectsRoot(fstab);
    RunNeverReuses(d, conf, es);
    forall n | n in d.nodes && (n in conf.protected || (!IsAutoName(n) && NotDeleted(es, n)))
      ensures n in Run(d, conf, es).nodes
    {
      RunStaysBound(d, conf, es, n);
    }
    if conf.root.Some? && RootIsDefault(d, conf.root.value) && (forall e :: e in es ==> UndoWorks(e)) {
      RunKeepsDefault(d, conf, es);
    }
  }
}
