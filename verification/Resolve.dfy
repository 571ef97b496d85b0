/** How a snapshot argument is resolved, and which snapshot counts as the most recent. */
module Resolve {
  import opened Wrappers
  import opened Numbers
  import opened Store
  import opened AutoName
  import opened Retention
  import opened SubvolList
  import opened Operations
  import opened Snapshots
  import NamespaceRuns

  function FindId(entries: seq<Entry>, id: nat): Option<Entry> {
    if entries == [] then None
    else if entries[0].id == id then Some(entries[0])
    else FindId(entries[1..], id)
  }

  function FindPath(entries: seq<Entry>, path: string): Option<Entry> {
    if entries == [] then None
    else if entries[0].path == path then Some(entries[0])
    else FindPath(entries[1..], path)
  }

  /** Numeric arguments are ids, all others are names. */
  function ResolveArg(entries: seq<Entry>, arg: string): Option<Entry> {
    match ParseU64(arg)
    case Some(id) => FindId(entries, id)
    case None => FindPath(entries, arg)
  }

  function Later(e: Entry, best: Option<Entry>): Option<Entry> {
    if best.Some? && best.value.id >= e.id then best else Some(e)
  }

  /** max_by_key on the id, over the unprotected entries. */
  function MostRecent(entries: seq<Entry>, protected: seq<string>): Option<Entry> {
    if entries == [] then None
    else
      var rest := MostRecent(entries[1..], protected);
      if entries[0].path in protected then rest else Later(entries[0], rest)
  }

  lemma {:induction false} FoundId(entries: seq<Entry>, id: nat)
    ensures match FindId(entries, id)
      case Some(e) => e in entries && e.id == id
      case None => forall e :: e in entries ==> e.id != id
  {
    if entries != [] {
      FoundId(entries[1..], id);
    }
  }

  lemma {:induction false} FoundPath(entries: seq<Entry>, path: string)
    ensures match FindPath(entries, path)
      case Some(e) => e in entries && e.path == path
      case None => forall e :: e in entries ==> e.path != path
  {
    if entries != [] {
      FoundPath(entries[1..], path);
    }
  }

  /** In whatever order subvolumes are listed, an argument means exactly this subvolume. */
  lemma ResolveExact<C>(d: Disk<C>, l: seq<Entry>, arg: string, e: Entry)
    requires Valid(d) && IsListing(d, l)
    ensures ResolveArg(l, arg) == Some(e) <==>
      IdOf(d, e.path) == Some(e.id) && if ParseU64(arg).Some? then ParseU64(arg) == Some(e.id) else arg == e.path
  {
    if ParseU64(arg).Some? {
      FoundId(l, ParseU64(arg).value);
    } else {
      FoundPath(l, arg);
    }
  }

  /** A subvolume can be named by its own name, unless that name is another number than its id. */
  lemma OwnNameResolves<C>(d: Disk<C>, l: seq<Entry>, name: string)
    requires Valid(d) && IsListing(d, l) && IdOf(d, name).Some?
    ensures ResolveArg(l, name) == Some(Entry(IdOf(d, name).value, name)) <==>
      ParseU64(name).None? || ParseU64(name) == IdOf(d, name)
  {
    ResolveExact(d, l, name, Entry(IdOf(d, name).value, name));
  }

  lemma {:induction false} MostRecentIsHighest(entries: seq<Entry>, protected: seq<string>)
    ensures match MostRecent(entries, protected)
      case Some(m) => m in entries && m.path !in protected
        && forall e :: e in entries && e.path !in protected ==> e.id <= m.id
      case None => forall e :: e in entries ==> e.path in protected
  {
    if entries != [] {
      MostRecentIsHighest(entries[1..], protected);
    }
  }

  /** Right after a snapshot is created, it is the most recent one, whatever retention did. */
  lemma CreatedIsMostRecent<C>(d: Disk<C>, conf: Conf, request: Option<string>, now: Time, env: SnapshotEnv,
                               l: seq<Entry>)
    requires Valid(d) && Creates(d, conf, request, now, env) && SnapshotName(request, now) !in conf.protected
    requires IsListing(SnapshotDisk(d, conf, request, now, env), l)
    ensures MostRecent(l, conf.protected) == Some(Entry(d.nextId, SnapshotName(request, now)))
  {
    var f := SnapshotDisk(d, conf, request, now, env);
    var name := SnapshotName(request, now);
    CreatedHolds(d, conf, request, now, env);
    NamespaceRuns.SnapshotKeepsValid(d, conf, request, now, env);
    MostRecentIsHighest(l, conf.protected);
    assert Entry(d.nextId, name) in l;
    var m := MostRecent(l, conf.protected).value;
    assert IdOf(f, m.path) == Some(m.id);
    BoundHasContent(f, m.path);
    assert f.nextId == d.nextId + 1;
    assert f.nodes[m.path] == f.nodes[name];
  }
}
