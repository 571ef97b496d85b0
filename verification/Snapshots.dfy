/** What a snapshot is good for: its content until it is rolled back to, and the limit on their number. */
module Snapshots {
  import opened Wrappers
  import opened Store
  import opened AutoName
  import opened Retention
  import opened SubvolList
  import opened Operations
  import opened Rollbacks
  import opened NamespaceRuns

  // --- content ---

  /** The name is bound to an id that is not in use, with this content. */
  ghost predicate Holds<C>(d: Disk<C>, name: string, id: nat, value: C) {
    IdOf(d, name) == Some(id) && id != d.mounted && id in d.content && d.content[id] == value
  }

  ghost predicate Untouched<C>(es: seq<Event<C>>, name: string) {
    forall i :: 0 <= i < |es| ==> !(es[i].Rollback? && es[i].name == name)
  }

  lemma NextHolds<C>(d: Disk<C>, conf: Conf, e: Event<C>, name: string, id: nat, value: C)
    requires Valid(d) && Holds(d, name, id, value) && conf.root != Some(name)
    requires !(e.Rollback? && e.name == name)
    ensures var f := Next(d, conf, e);
      if name in f.nodes then Holds(f, name, id, value) else id !in f.content
  {
    match e
    case Snapshot(request, now, env) => SnapshotHolds(d, conf, request, now, env, name, id, value);
    case Delete(n, env) => DeleteHolds(d, conf, n, env, name, id, value);
    case _ =>
  }

  lemma DeleteHolds<C>(d: Disk<C>, conf: Conf, n: string, env: DeleteEnv, name: string, id: nat, value: C)
    requires Valid(d) && Holds(d, name, id, value)
    ensures var f := DeleteDisk(d, conf, n, env);
      if name in f.nodes then Holds(f, name, id, value) else id !in f.content
  {
  }

  lemma CreateHolds<C>(
    d: Disk<C>, conf: Conf, request: Option<string>, now: Time, env: SnapshotEnv, name: string, id: nat, value: C)
    requires Valid(d) && Holds(d, name, id, value) && Creates(d, conf, request, now, env)
    ensures var f := AfterCreate(d, conf, request, now, env); Valid(f) && Holds(f, name, id, value)
  {
    BoundHasContent(d, conf.root.value);
    CreateKeepsValid(d, SnapshotName(request, now), IdOf(d, conf.root.value).value);
  }

  lemma SnapshotHolds<C>(
    d: Disk<C>, conf: Conf, request: Option<string>, now: Time, env: SnapshotEnv, name: string, id: nat, value: C)
    requires Valid(d) && Holds(d, name, id, value)
    ensures var f := SnapshotDisk(d, conf, request, now, env);
      if name in f.nodes then Holds(f, name, id, value) else id !in f.content
  {
    if Creates(d, conf, request, now, env) {
      CreateHolds(d, conf, request, now, env, name, id, value);
      var f := AfterCreate(d, conf, request, now, env);
      RetentionHolds(f, conf.protected, env.max, env.stuck + Busy(f), name, id, value);
    }
  }

  lemma RetentionHolds<C>(
    d: Disk<C>, protected: seq<string>, max: nat, stuck: set<nat>, name: string, id: nat, value: C)
    requires Holds(d, name, id, value)
    requires forall a, b :: a in d.nodes && b in d.nodes && d.nodes[a].Subvol? && d.nodes[a] == d.nodes[b] ==> a == b
    ensures var f := Retained(d, protected, max, stuck);
      if name in f.nodes then Holds(f, name, id, value) else id !in f.content
  {
  }

  lemma NextStaysGone<C>(d: Disk<C>, conf: Conf, e: Event<C>, id: nat)
    requires Valid(d) && id !in d.content && id < d.nextId
    ensures id !in Next(d, conf, e).content && id < Next(d, conf, e).nextId
  {
  }

  lemma {:induction false} RunStaysGone<C>(d: Disk<C>, conf: Conf, es: seq<Event<C>>, id: nat)
    requires Valid(d) && id !in d.content && id < d.nextId
    ensures id !in Run(d, conf, es).content
    decreases |es|
  {
    if es != [] {
      NextStaysGone(d, conf, es[0], id);
      RunStaysGone(Next(d, conf, es[0]), conf, es[1..], id);
    }
  }

  /** Through any run without a rollback to it, a snapshot keeps its content or is gone for good. */
  lemma {:induction false} RunHolds<C>(d: Disk<C>, conf: Conf, es: seq<Event<C>>, name: string, id: nat, value: C)
    requires Valid(d) && Holds(d, name, id, value) && conf.root != Some(name) && Untouched(es, name)
    ensures Holds(Run(d, conf, es), name, id, value) || id !in Run(d, conf, es).content
    decreases |es|
  {
    if es != [] {
      var f := Next(d, conf, es[0]);
      NextHolds(d, conf, es[0], name, id, value);
      if name in f.nodes {
        RunHolds(f, conf, es[1..], name, id, value);
      } else {
        assert id < d.nextId;
        NextNeverReuses(d, conf, es[0]);
        RunStaysGone(f, conf, es[1..], id);
      }
    }
  }

  /** A new snapshot survives its own retention, and holds what root holds. */
  lemma CreatedHolds<C>(d: Disk<C>, conf: Conf, request: Option<string>, now: Time, env: SnapshotEnv)
    requires Valid(d) && Creates(d, conf, request, now, env)
    ensures IdOf(d, conf.root.value).value in d.content
    ensures Holds(SnapshotDisk(d, conf, request, now, env), SnapshotName(request, now), d.nextId,
                  d.content[IdOf(d, conf.root.value).value])
    ensures conf.root != Some(SnapshotName(request, now))
  {
    BoundHasContent(d, conf.root.value);
    var f := AfterCreate(d, conf, request, now, env);
    var name, value := SnapshotName(request, now), d.content[IdOf(d, conf.root.value).value];
    assert Holds(f, name, d.nextId, value);
    CreateKeepsValid(d, name, IdOf(d, conf.root.value).value);
    RetentionHolds(f, conf.protected, env.max, env.stuck + Busy(f), name, d.nextId, value);
    NewestIsNoVictim(f, conf.protected, env.max, env.stuck + Busy(f), name);
  }

  lemma NewestIsNoVictim<C>(d: Disk<C>, protected: seq<string>, max: nat, stuck: set<nat>, name: string)
    requires Valid(d) && name in d.nodes && d.nodes[name] == Subvol(d.nextId - 1)
    ensures name in Retained(d, protected, max, stuck).nodes
  {
    var e := Entry(d.nextId - 1, name);
    forall a | a in Autos(d, protected)
      ensures a.id <= e.id
    {
      AutosAreListed(d, protected, a);
      BoundHasContent(d, a.path);
    }
    assert Younger(Autos(d, protected), e) == {};
    OnlyVictimsGo(d, protected, max, stuck, name);
  }

  /**
   The point of a snapshot: take one, let anything happen except a rollback to it, roll back to it
   while its name still stands for it, and root holds what it held when the snapshot was taken.
   */
  lemma RollbackRestores<C>(d: Disk<C>, conf: Conf, request: Option<string>, now: Time, env: SnapshotEnv,
                            es: seq<Event<C>>, renv: RollbackEnv)
    requires Valid(d) && Creates(d, conf, request, now, env) && Untouched(es, SnapshotName(request, now))
    requires var name, before := SnapshotName(request, now), Run(d, conf, [Snapshot(request, now, env)] + es);
      IdOf(before, name) == Some(d.nextId) && Completes(before, conf, name, renv)
    ensures var name, before := SnapshotName(request, now), Run(d, conf, [Snapshot(request, now, env)] + es);
      var after := RollbackDisk(before, conf, name, renv);
      && IdOf(d, conf.root.value).value in d.content
      && IdOf(after, conf.root.value) == Some(d.nextId) && d.nextId in after.content
      && after.content[d.nextId] == d.content[IdOf(d, conf.root.value).value]
  {
    var name := SnapshotName(request, now);
    var all := [Snapshot(request, now, env)] + es;
    assert all[1..] == es && all[0] == Snapshot(request, now, env);
    CreatedHolds(d, conf, request, now, env);
    var value := d.content[IdOf(d, conf.root.value).value];
    var first := Next(d, conf, all[0]);
    RunHolds(first, conf, es, name, d.nextId, value);
    var before := Run(d, conf, all);
    assert before == Run(first, conf, es);
    BoundHasContent(before, name);
    RollbackConserves(before, conf, name, renv);
    AllOrNothing(before, conf, name, renv);
  }

  /** A snapshot under a user's name is still there, unless the user deletes it. */
  lemma UserSnapshotStays<C>(d: Disk<C>, conf: Conf, es: seq<Event<C>>, name: string, id: nat, value: C)
    requires Valid(d) && Holds(d, name, id, value) && conf.root != Some(name) && Untouched(es, name)
    requires !IsAutoName(name) && NotDeleted(es, name)
    ensures Holds(Run(d, conf, es), name, id, value)
    decreases |es|
  {
    if es != [] {
      NextHolds(d, conf, es[0], name, id, value);
      NextStaysBound(d, conf, es[0], name);
      UserSnapshotStays(Next(d, conf, es[0]), conf, es[1..], name, id, value);
    }
  }

  // --- the limit over a run ---

  /** An automatic snapshot with limit max whose retention runs and deletes whatever it must. */
  ghost predicate Smooth<C>(d: Disk<C>, conf: Conf, e: Event<C>, max: nat)
    requires Valid(d)
  {
    match e
    case Snapshot(request, now, env) =>
      request.None? && Creates(d, conf, request, now, env) ==>
        && Retains(request, env) && env.max == max
        && var f := AfterCreate(d, conf, request, now, env);
           forall v :: v in Victims(Autos(f, conf.protected), max) ==> v.id !in env.stuck + Busy(f)
    case Rollback(_, env) => env.undo
    case _ => true
  }

  ghost predicate AllSmooth<C>(d: Disk<C>, conf: Conf, es: seq<Event<C>>, max: nat)
    requires Valid(d)
    decreases |es|
  {
    es == [] || (Smooth(d, conf, es[0], max) && AllSmooth(Next(d, conf, es[0]), conf, es[1..], max))
  }

  ghost predicate WithinLimit<C>(d: Disk<C>, conf: Conf, max: nat) {
    |Autos(d, conf.protected)| <= max
  }

  ghost predicate AlwaysWithinLimit<C>(d: Disk<C>, conf: Conf, es: seq<Event<C>>, max: nat)
    requires Valid(d)
    decreases |es|
  {
    WithinLimit(d, conf, max) && (es == [] || AlwaysWithinLimit(Next(d, conf, es[0]), conf, es[1..], max))
  }

  /** Entries under other ids, but no new names: no more automatic snapshots than before. */
  lemma {:induction false} FewerNames(a: set<Entry>, b: set<Entry>)
    requires forall x, y :: x in a && y in a && x.path == y.path ==> x == y
    requires Paths(a) <= Paths(b)
    ensures |a| <= |b|
  {
    if a != {} {
      var x :| x in a;
      assert x.path in Paths(a);
      var y :| y in b && y.path == x.path;
      forall p | p in Paths(a - {x})
        ensures p in Paths(b - {y})
      {
        assert p in Paths(a);
        var w :| w in b && w.path == p;
        assert w in b - {y};
      }
      FewerNames(a - {x}, b - {y});
    }
  }

  lemma NoNewAutos<C>(d: Disk<C>, f: Disk<C>, protected: seq<string>)
    requires forall n :: n in f.nodes && f.nodes[n].Subvol? && IsAutoName(n) && n !in protected ==> IdOf(d, n).Some?
    ensures |Autos(f, protected)| <= |Autos(d, protected)|
  {
    forall p | p in Paths(Autos(f, protected))
      ensures p in Paths(Autos(d, protected))
    {
      assert Entry(IdOf(d, p).value, p) in Autos(d, protected);
    }
    FewerNames(Autos(f, protected), Autos(d, protected));
  }

  predicate IsAutomatic<C>(e: Event<C>) {
    e.Snapshot? && e.request.None?
  }

  ghost predicate CreatesAutomatic<C>(d: Disk<C>, conf: Conf, e: Event<C>) {
    IsAutomatic(e) && Creates(d, conf, e.request, e.now, e.senv)
  }

  /** One automatic snapshot brings any disk within the limit. */
  lemma AutomaticReachesLimit<C>(d: Disk<C>, conf: Conf, e: Event<C>, max: nat)
    requires Valid(d) && max >= 1 && Smooth(d, conf, e, max) && CreatesAutomatic(d, conf, e)
    ensures WithinLimit(Next(d, conf, e), conf, max)
  {
    var f := AfterCreate(d, conf, e.request, e.now, e.senv);
    BoundHasContent(d, conf.root.value);
    CreateKeepsValid(d, SnapshotName(e.request, e.now), IdOf(d, conf.root.value).value);
    RetentionExact(f, conf.protected, max, e.senv.stuck + Busy(f));
  }

  /** Nothing else adds one. */
  lemma OthersAddNone<C>(d: Disk<C>, conf: Conf, e: Event<C>, max: nat)
    requires Valid(d) && ProtectsRoot(conf) && Smooth(d, conf, e, max) && !CreatesAutomatic(d, conf, e)
    ensures |Autos(Next(d, conf, e), conf.protected)| <= |Autos(d, conf.protected)|
  {
    NoNewAutos(d, Next(d, conf, e), conf.protected);
  }

  function Larger(a: nat, b: nat): nat {
    if a < b then b else a
  }

  lemma {:induction false} LimitKept<C>(d: Disk<C>, conf: Conf, es: seq<Event<C>>, max: nat, bound: nat)
    requires Valid(d) && ProtectsRoot(conf) && 1 <= max <= bound
    requires WithinLimit(d, conf, bound) && AllSmooth(d, conf, es, max)
    ensures AlwaysWithinLimit(d, conf, es, bound)
    decreases |es|
  {
    if es != [] {
      if CreatesAutomatic(d, conf, es[0]) {
        AutomaticReachesLimit(d, conf, es[0], max);
      } else {
        OthersAddNone(d, conf, es[0], max);
      }
      LimitKept(Next(d, conf, es[0]), conf, es[1..], max, bound);
    }
  }

  /**
   Over every run in which the deletions succeed, from any disk: never more automatic snapshots
   than at the start or the limit, and from the first new one on never more than the limit.
   */
  lemma LimitHolds<C>(d: Disk<C>, conf: Conf, es: seq<Event<C>>, max: nat)
    requires Valid(d) && ProtectsRoot(conf) && max >= 1 && AllSmooth(d, conf, es, max)
    ensures AlwaysWithinLimit(d, conf, es, Larger(|Autos(d, conf.protected)|, max))
    ensures es != [] && CreatesAutomatic(d, conf, es[0]) ==>
      AlwaysWithinLimit(Next(d, conf, es[0]), conf, es[1..], max)
  {
    LimitKept(d, conf, es, max, Larger(|Autos(d, conf.protected)|, max));
    if es != [] && CreatesAutomatic(d, conf, es[0]) {
      AutomaticReachesLimit(d, conf, es[0], max);
      LimitKept(Next(d, conf, es[0]), conf, es[1..], max, max);
    }
  }
}
