/** What snapshot, delete and rollback do to the disk, by outcome. */
module Operations {
  import opened Wrappers
  import opened Store
  import opened AutoName
  import opened Retention
  import opened SubvolList
  import opened Verdict
  import Fstab

  /** What the tool reads from fstab: whether "/" has an entry, its subvolume, all system subvolumes. */
  datatype Conf = Conf(hasRoot: bool, root: Option<string>, protected: seq<string>)

  function ConfOf(fstab: string): Conf {
    Conf(Fstab.RootEntry(fstab).Some?, Fstab.RootSubvolName(fstab), Fstab.FstabSubvolNames(fstab))
  }

  ghost predicate ProtectsRoot(conf: Conf) {
    conf.root.Some? ==> conf.hasRoot && conf.root.value in conf.protected
  }

  /** Every fstab protects the root subvolume it names. */
  lemma FstabProtectsRoot(fstab: string)
    ensures ProtectsRoot(ConfOf(fstab))
  {
    if Fstab.RootSubvolName(fstab).Some? {
      Fstab.RootIsProtected(fstab);
    }
  }

  // --- delete ---

  /** Whether fstab can be read, the subvolumes listed, and the deletion carried out. */
  datatype DeleteEnv = DeleteEnv(fstab: bool, list: bool, command: bool)

  datatype DeleteError = NoFstab | Protected | NotListed | CommandFailed

  /** btrfs itself refuses the default subvolume and the mounted one. */
  ghost function Busy<C>(d: Disk<C>): set<nat> {
    {d.defaultId, d.mounted}
  }

  ghost predicate Deletes<C>(d: Disk<C>, conf: Conf, name: string, env: DeleteEnv) {
    && env.fstab && env.list && env.command
    && name !in conf.protected && IdOf(d, name).Some? && IdOf(d, name).value !in Busy(d)
  }

  ghost function DeleteDisk<C>(d: Disk<C>, conf: Conf, name: string, env: DeleteEnv): Disk<C> {
    if Deletes(d, conf, name, env) then Remove(d, {name}) else d
  }

  // --- snapshot ---

  /**
   Whether the root device resolves, the top level mounts, the snapshot command succeeds and the
   subvolumes can be listed; then the limit, and what fails during retention.
   */
  datatype SnapshotEnv = SnapshotEnv(
    device: bool, mount: bool, create: bool, list: bool,
    max: nat, retainFstab: bool, retainList: bool, stuck: set<nat>)

  datatype SnapshotResult = Created(name: string, id: nat) | Existed(name: string, id: nat) | NotBtrfs

  datatype SnapshotError = Reserved | NoRootDevice | NoToplevel | CreateFailed | NoId

  function SnapshotName(request: Option<string>, now: Time): string {
    match request case Some(n) => n case None => GenerateAutoName(now)
  }

  predicate IsReserved(request: Option<string>) {
    request.Some? && IsAutoName(request.value)
  }

  ghost predicate Reaches(conf: Conf, request: Option<string>, env: SnapshotEnv) {
    !IsReserved(request) && env.device && conf.hasRoot && conf.root.Some? && env.mount
  }

  /** Exactly when a new subvolume comes into being. */
  ghost predicate Creates<C>(d: Disk<C>, conf: Conf, request: Option<string>, now: Time, env: SnapshotEnv) {
    && Reaches(conf, request, env) && env.create
    && SnapshotName(request, now) !in d.nodes && IdOf(d, conf.root.value).Some?
  }

  ghost predicate Retains(request: Option<string>, env: SnapshotEnv) {
    request.None? && env.list && env.retainFstab && env.retainList
  }

  ghost function AfterCreate<C>(d: Disk<C>, conf: Conf, request: Option<string>, now: Time, env: SnapshotEnv): Disk<C>
    requires Valid(d) && Creates(d, conf, request, now, env)
  {
    BoundHasContent(d, conf.root.value);
    Create(d, SnapshotName(request, now), IdOf(d, conf.root.value).value)
  }

  ghost function SnapshotDisk<C>(d: Disk<C>, conf: Conf, request: Option<string>, now: Time, env: SnapshotEnv): Disk<C>
    requires Valid(d)
  {
    if !Creates(d, conf, request, now, env) then d
    else
      var e := AfterCreate(d, conf, request, now, env);
      if Retains(request, env) then Retained(e, conf.protected, env.max, env.stuck + Busy(e)) else e
  }

  // --- rollback ---

  /** Which of the steps succeed; verdict is what the gate says of the snapshot. */
  datatype RollbackEnv = RollbackEnv(
    device: bool, mount: bool, verdict: BootStatus, exchange: bool, list: bool, setDefault: bool, undo: bool,
    sync: bool, unmount: bool)

  datatype RollbackError =
    NoRoot | NoMount | NotFound | ChainInvalid | ExchangeFailed | NoRootId | SetDefaultFailed | SyncFailed
    | UnmountFailed

  /** The top level is mounted. */
  predicate Mounts(conf: Conf, env: RollbackEnv) {
    env.device && conf.hasRoot && conf.root.Some? && env.mount
  }

  predicate Verified(env: RollbackEnv) {
    env.verdict.Pass? || env.verdict.Warn?
  }

  /** The exchange is reached and succeeds. */
  ghost predicate Exchanges<C>(d: Disk<C>, conf: Conf, name: string, env: RollbackEnv) {
    && Mounts(conf, env) && name in d.nodes && Verified(env)
    && env.exchange && conf.root.value in d.nodes
  }

  /** After the exchange: the new root is a subvolume that can be looked up and made the default. */
  ghost predicate Completes<C>(d: Disk<C>, conf: Conf, name: string, env: RollbackEnv) {
    Exchanges(d, conf, name, env) && env.list && d.nodes[name].Subvol? && env.setDefault
  }

  ghost function RollbackDisk<C>(d: Disk<C>, conf: Conf, name: string, env: RollbackEnv): Disk<C> {
    if !Exchanges(d, conf, name, env) then d
    else if Completes(d, conf, name, env) then
      Exchange(d, conf.root.value, name).(defaultId := d.nodes[name].id)
    else if env.undo then d
    else Exchange(d, conf.root.value, name)
  }

  // --- one step of the eviction loop ---

  /** The entry whose turn it is, and those done before it. */
  lemma InLine<C>(d: Disk<C>, protected: seq<string>, autos: seq<Entry>, k: nat)
    requires Ascending(autos) && Elements(autos) == Autos(d, protected) && k < |autos|
    ensures autos[k] !in Elements(autos[..k]) && autos[k].path !in protected
    ensures forall x :: x in Elements(autos[..k]) || x == autos[k] ==> IdOf(d, x.path) == Some(x.id)
  {
    forall x | x in Elements(autos[..k]) || x == autos[k]
      ensures IdOf(d, x.path) == Some(x.id)
    {
      assert x in Elements(autos);
      AutosAreListed(d, protected, x);
    }
    assert autos[k] in Elements(autos);
    AutosAreListed(d, protected, autos[k]);
  }

  lemma EvictOne<C>(d: Disk<C>, conf: Conf, done: set<Entry>, e: Entry, stuck: set<nat>)
    requires IdOf(d, e.path) == Some(e.id) && e !in done && e.path !in conf.protected
    requires forall x :: x in done ==> IdOf(d, x.path) == Some(x.id)
    ensures var failing := stuck + Busy(d);
      DeleteDisk(Remove(d, Paths(Removable(done, failing))), conf, e.path, DeleteEnv(true, true, e.id !in stuck))
      == Remove(d, Paths(Removable(done + {e}, failing)))
  {
  }

  /** The disk once the first n in line have been tried. */
  ghost function Evicted<C>(d: Disk<C>, autos: seq<Entry>, n: nat, failing: set<nat>): Disk<C>
    requires n <= |autos|
  {
    Remove(d, Paths(Removable(Elements(autos[..n]), failing)))
  }

  lemma NoneEvicted<C>(d: Disk<C>, autos: seq<Entry>, failing: set<nat>)
    ensures Evicted(d, autos, 0, failing) == d == Remove(d, Paths(Removable({}, failing)))
  {
  }

  lemma EvictNext<C>(d: Disk<C>, conf: Conf, autos: seq<Entry>, k: nat, stuck: set<nat>)
    requires Ascending(autos) && Elements(autos) == Autos(d, conf.protected) && k < |autos|
    ensures var failing := stuck + Busy(d);
      DeleteDisk(Evicted(d, autos, k, failing), conf, autos[k].path, DeleteEnv(true, true, autos[k].id !in stuck))
      == Evicted(d, autos, k + 1, failing)
  {
    InLine(d, conf.protected, autos, k);
    EvictOne(d, conf, Elements(autos[..k]), autos[k], stuck);
    assert autos[..k + 1] == autos[..k] + [autos[k]];
    assert Elements(autos[..k + 1]) == Elements(autos[..k]) + {autos[k]};
  }

  /** Trying the front of the line is what retention means. */
  lemma RetainedInLine<C>(d: Disk<C>, protected: seq<string>, autos: seq<Entry>, max: nat, failing: set<nat>)
    requires Ascending(autos) && Elements(autos) == Autos(d, protected) && max >= 1
    ensures Retained(d, protected, max, failing)
      == if |autos| <= max then d else Evicted(d, autos, |autos| - max, failing)
  {
    FrontOfLine(autos, max);
    if |autos| <= max {
      NoneEvicted(d, autos, failing);
    }
  }

  // --- the class of disks the operations work on, method by method ---

  class Namespace<C> {
    const fstab: string
    var nodes: map<string, Node>
    var content: map<nat, C>
    var defaultId: nat
    var mounted: nat
    var nextId: nat

    ghost function State(): Disk<C>
      reads this
    {
      Disk(nodes, content, defaultId, mounted, nextId)
    }

    constructor (fstab: string, d: Disk<C>)
      ensures this.fstab == fstab && State() == d
    {
      this.fstab := fstab;
      nodes, content, defaultId, mounted, nextId := d.nodes, d.content, d.defaultId, d.mounted, d.nextId;
    }

    method Lookup(name: string) returns (id: Option<nat>)
      ensures id == IdOf(State(), name)
    {
      if name in nodes && nodes[name].Subvol? {
        return Some(nodes[name].id);
      }
      return None;
    }

    /** "btrfs subvolume list": the order is the filesystem's. */
    method List() returns (l: seq<Entry>)
      ensures IsListing(State(), l)
    {
      l := [];
      var left := nodes.Keys;
      while left != {}
        invariant left <= nodes.Keys
        invariant forall i, j :: 0 <= i < j < |l| ==> l[i] != l[j]
        invariant forall e: Entry :: e in l <==> e.path !in left && IdOf(State(), e.path) == Some(e.id)
        decreases left
      {
        var n :| n in left;
        if nodes[n].Subvol? {
          l := l + [Entry(nodes[n].id, n)];
        }
        left := left - {n};
      }
    }

    method ExchangeNames(a: string, b: string, works: bool) returns (ok: bool)
      modifies this`nodes
      ensures ok == (works && a in old(nodes) && b in old(nodes))
      ensures nodes == if ok then Swap(old(nodes), a, b) else old(nodes)
    {
      ok := works && a in nodes && b in nodes;
      if ok {
        nodes := Swap(nodes, a, b);
      }
    }

    method Delete(name: string, env: DeleteEnv) returns (r: Result<nat, DeleteError>)
      modifies this`nodes, this`content
      ensures r.Ok? <==> Deletes(old(State()), ConfOf(fstab), name, env)
      ensures r.Ok? ==> IdOf(old(State()), name) == Some(r.value)
      ensures State() == DeleteDisk(old(State()), ConfOf(fstab), name, env)
      ensures r == Err(NoFstab) <==> !env.fstab
      ensures r == Err(Protected) <==> env.fstab && name in ConfOf(fstab).protected
      ensures r == Err(NotListed) <==>
        env.fstab && name !in ConfOf(fstab).protected && (!env.list || IdOf(old(State()), name).None?)
    {
      if !env.fstab {
        return Err(NoFstab);
      }
      if name in Fstab.FstabSubvolNames(fstab) {
        return Err(Protected);
      }
      var id := Lookup(name);
      if !env.list || id.None? {
        return Err(NotListed);
      }
      if !env.command || id.value == defaultId || id.value == mounted {
        return Err(CommandFailed);
      }
      assert IdsOf(State(), {name}) == {id.value};
      nodes := nodes - {name};
      content := content - {id.value};
      return Ok(id.value);
    }

    /** The deletion loop; failed deletions are only reported. */
    method EvictFront(autos: seq<Entry>, max: nat, stuck: set<nat>)
      requires Ascending(autos) && Elements(autos) == Autos(State(), ConfOf(fstab).protected)
      requires 1 <= max <= |autos|
      modifies this`nodes, this`content
      ensures State() == Retained(old(State()), ConfOf(fstab).protected, max, stuck + Busy(old(State())))
    {
      ghost var d := State();
      NoneEvicted(d, autos, stuck + Busy(d));
      for k := 0 to |autos| - max
        invariant State() == Evicted(d, autos, k, stuck + Busy(d))
      {
        EvictNext(d, ConfOf(fstab), autos, k, stuck);
        var r := Delete(autos[k].path, DeleteEnv(true, true, autos[k].id !in stuck));
      }
      RetainedInLine(d, ConfOf(fstab).protected, autos, max, stuck + Busy(d));
    }

    /** The unprotected automatic snapshots, oldest first. */
    method AutosByAge() returns (autos: seq<Entry>)
      requires Valid(State())
      ensures Ascending(autos) && Elements(autos) == Autos(State(), ConfOf(fstab).protected)
    {
      var protected := ConfOf(fstab).protected;
      var entries := List();
      autos := SortById(Filter(entries, protected));
      LineUp(State(), protected, entries);
    }

    /** Delete from the front of the line. */
    method EvictOldest(max: nat, stuck: set<nat>)
      requires Valid(State()) && max >= 1
      modifies this`nodes, this`content
      ensures State() == Retained(old(State()), ConfOf(fstab).protected, max, stuck + Busy(old(State())))
    {
      var autos := AutosByAge();
      if |autos| <= max {
        RetainedInLine(State(), ConfOf(fstab).protected, autos, max, stuck + Busy(State()));
        return;
      }
      EvictFront(autos, max, stuck);
    }

    /** A limit of 0 disables retention; so does failing to read fstab or the list. */
    method Retain(env: SnapshotEnv)
      requires Valid(State())
      modifies this`nodes, this`content
      ensures var d := old(State());
        State() == if env.retainFstab && env.retainList
                   then Retained(d, ConfOf(fstab).protected, env.max, env.stuck + Busy(d))
                   else d
    {
      if env.max == 0 || !env.retainFstab || !env.retainList {
        return;
      }
      EvictOldest(env.max, env.stuck);
    }

    method CreateFrom(root: string, name: string, works: bool) returns (ok: bool)
      requires Valid(State()) && name !in nodes
      modifies this`nodes, this`content, this`nextId
      ensures ok == (works && IdOf(old(State()), root).Some?)
      ensures !ok ==> State() == old(State())
      ensures ok ==> IdOf(old(State()), root).value in old(content)
      ensures ok ==> State() == Create(old(State()), name, IdOf(old(State()), root).value)
      ensures Valid(State()) && IdOf(State(), name) == if ok then Some(old(nextId)) else None
    {
      var source := Lookup(root);
      ok := works && source.Some?;
      if ok {
        BoundHasContent(State(), root);
        CreateKeepsValid(State(), name, source.value);
        nodes := nodes[name := Subvol(nextId)];
        content := content[nextId := content[source.value]];
        nextId := nextId + 1;
      }
    }

    method Snapshot(request: Option<string>, now: Time, env: SnapshotEnv)
      returns (r: Result<SnapshotResult, SnapshotError>)
      requires Valid(State())
      modifies this`nodes, this`content, this`nextId
      ensures State() == SnapshotDisk(old(State()), ConfOf(fstab), request, now, env)
      ensures r == Err(Reserved) <==> IsReserved(request)
      ensures r == Ok(NotBtrfs) <==>
        !IsReserved(request) && env.device && ConfOf(fstab).hasRoot && ConfOf(fstab).root.None?
      ensures r.Ok? && r.value.Created? <==> Creates(old(State()), ConfOf(fstab), request, now, env) && env.list
      ensures r.Ok? && r.value.Created? ==> r.value == Created(SnapshotName(request, now), old(nextId))
      ensures r.Ok? && r.value.Existed? <==>
        Reaches(ConfOf(fstab), request, env) && env.list && IdOf(old(State()), SnapshotName(request, now)).Some?
      ensures r.Ok? && r.value.Existed? ==>
        r.value.name == SnapshotName(request, now) && IdOf(old(State()), r.value.name) == Some(r.value.id)
      ensures r == Err(CreateFailed) <==>
        && Reaches(ConfOf(fstab), request, env) && SnapshotName(request, now) !in old(nodes)
        && !Creates(old(State()), ConfOf(fstab), request, now, env)
    {
      if IsReserved(request) {
        return Err(Reserved);
      }
      var name := SnapshotName(request, now);
      var conf := ConfOf(fstab);
      if !env.device || !conf.hasRoot {
        return Err(NoRootDevice);
      }
      if conf.root.None? {
        return Ok(NotBtrfs);
      }
      if !env.mount {
        return Err(NoToplevel);
      }
      var created := name !in nodes;
      if created {
        var ok := CreateFrom(conf.root.value, name, env.create);
        if !ok {
          return Err(CreateFailed);
        }
      }
      var id := Lookup(name);
      if !env.list || id.None? {
        return Err(NoId);
      }
      if request.None? && created {
        Retain(env);
      }
      return Ok(if created then Created(name, id.value) else Existed(name, id.value));
    }

    /** Exchange, look the new root up, make it the default, sync; undo the exchange on failure. */
    method SwapAndSetDefault(root: string, name: string, env: RollbackEnv) returns (failure: Option<RollbackError>)
      requires name in nodes
      modifies this`nodes, this`defaultId
      ensures !(env.exchange && root in old(nodes)) ==> failure == Some(ExchangeFailed) && State() == old(State())
      ensures env.exchange && root in old(nodes) ==>
        if env.list && old(nodes)[name].Subvol? && env.setDefault then
          && State() == Exchange(old(State()), root, name).(defaultId := old(nodes)[name].id)
          && failure == if env.sync then None else Some(SyncFailed)
        else
          && State() == (if env.undo then old(State()) else Exchange(old(State()), root, name))
          && failure == Some(if !env.unmount then UnmountFailed
                             else if env.list && old(nodes)[name].Subvol? then SetDefaultFailed else NoRootId)
    {
      var exchanged := ExchangeNames(root, name, env.exchange);
      if !exchanged {
        return Some(ExchangeFailed);
      }
      SwapTwice(old(nodes), root, name);
      var id := Lookup(root);
      if !env.list || id.None? {
        var undone := ExchangeNames(root, name, env.undo);
        return Some(if env.unmount then NoRootId else UnmountFailed);
      }
      if !env.setDefault {
        var undone := ExchangeNames(root, name, env.undo);
        return Some(if env.unmount then SetDefaultFailed else UnmountFailed);
      }
      defaultId := id.value;
      if !env.sync {
        return Some(SyncFailed);
      }
      return None;
    }

    /** None is success; the error does not say whether the exchange was completed. */
    method Rollback(name: string, env: RollbackEnv) returns (failure: Option<RollbackError>)
      modifies this`nodes, this`defaultId
      ensures State() == RollbackDisk(old(State()), ConfOf(fstab), name, env)
      ensures failure.None? <==> Completes(old(State()), ConfOf(fstab), name, env) && env.sync
      ensures failure == Some(SyncFailed) <==> Completes(old(State()), ConfOf(fstab), name, env) && !env.sync
      ensures failure == Some(NoRoot) <==> !env.device || !ConfOf(fstab).hasRoot || ConfOf(fstab).root.None?
      ensures failure == Some(NoMount) <==>
        env.device && ConfOf(fstab).hasRoot && ConfOf(fstab).root.Some? && !env.mount
      ensures failure == Some(NotFound) <==> Mounts(ConfOf(fstab), env) && name !in old(nodes) && env.unmount
      ensures failure == Some(ChainInvalid) <==>
        Mounts(ConfOf(fstab), env) && name in old(nodes) && !Verified(env) && env.unmount
      ensures failure == Some(ExchangeFailed) <==>
        && Mounts(ConfOf(fstab), env) && name in old(nodes) && Verified(env)
        && !Exchanges(old(State()), ConfOf(fstab), name, env)
      ensures failure == Some(NoRootId) <==>
        Exchanges(old(State()), ConfOf(fstab), name, env) && env.unmount && !(env.list && old(nodes)[name].Subvol?)
      ensures failure == Some(SetDefaultFailed) <==>
        && Exchanges(old(State()), ConfOf(fstab), name, env) && env.unmount
        && env.list && old(nodes)[name].Subvol? && !env.setDefault
    {
      var conf := ConfOf(fstab);
      if !env.device || !conf.hasRoot || conf.root.None? {
        return Some(NoRoot);
      }
      if !env.mount {
        return Some(NoMount);
      }
      if name !in nodes {
        return Some(if env.unmount then NotFound else UnmountFailed);
      }
      match env.verdict {
        case Pass =>
        case Warn =>
        case Fail => return Some(if env.unmount then ChainInvalid else UnmountFailed);
        case Inaccessible => return Some(if env.unmount then ChainInvalid else UnmountFailed);
      }
      failure := SwapAndSetDefault(conf.root.value, name, env);
    }
  }
}
