/** The top level of a btrfs filesystem: named subvolumes, their contents and the default subvolume. */
module Store {
  import opened Wrappers

  /** What a name at the top level stands for. */
  datatype Node = Subvol(id: nat) | Plain

  /**
   The nodes at the top level, what each subvolume id holds, the default subvolume, the one
   mounted at "/", and the id the filesystem gives out next.
   */
  datatype Disk<C> = Disk(
    nodes: map<string, Node>, content: map<nat, C>, defaultId: nat, mounted: nat, nextId: nat)

  function IdOf<C>(d: Disk<C>, name: string): Option<nat> {
    if name in d.nodes && d.nodes[name].Subvol? then Some(d.nodes[name].id) else None
  }

  ghost function IdsOf<C>(d: Disk<C>, names: set<string>): set<nat> {
    set n | n in names && n in d.nodes && d.nodes[n].Subvol? :: d.nodes[n].id
  }

  ghost function Ids<C>(d: Disk<C>): set<nat> {
    IdsOf(d, d.nodes.Keys)
  }

  /** No id has two names, every bound id has a content, no id is above the counter, "/" is mounted. */
  ghost predicate Valid<C>(d: Disk<C>) {
    && (forall a, b :: a in d.nodes && b in d.nodes && d.nodes[a].Subvol? && d.nodes[a] == d.nodes[b] ==> a == b)
    && d.content.Keys == Ids(d)
    && (forall i :: i in d.content ==> i < d.nextId)
    && d.mounted in d.content
  }

  /** GRUB resolves btrfs-relative paths against the default id, the kernel mounts the root name. */
  ghost predicate RootIsDefault<C>(d: Disk<C>, root: string) {
    IdOf(d, root) == Some(d.defaultId)
  }

  // --- operations ---

  function Create<C>(d: Disk<C>, name: string, source: nat): Disk<C>
    requires source in d.content
  {
    d.(nodes := d.nodes[name := Subvol(d.nextId)],
       content := d.content[d.nextId := d.content[source]],
       nextId := d.nextId + 1)
  }

  ghost function Remove<C>(d: Disk<C>, names: set<string>): Disk<C> {
    d.(nodes := d.nodes - names, content := d.content - IdsOf(d, names))
  }

  function Swap(nodes: map<string, Node>, a: string, b: string): map<string, Node>
    requires a in nodes && b in nodes
  {
    nodes[a := nodes[b]][b := nodes[a]]
  }

  function Exchange<C>(d: Disk<C>, a: string, b: string): Disk<C>
    requires a in d.nodes && b in d.nodes
  {
    d.(nodes := Swap(d.nodes, a, b))
  }

  // --- what each keeps ---

  lemma BoundHasContent<C>(d: Disk<C>, name: string)
    requires Valid(d) && IdOf(d, name).Some?
    ensures IdOf(d, name).value in d.content
  {
  }

  lemma CreateIds<C>(d: Disk<C>, name: string, source: nat)
    requires Valid(d) && source in d.content && name !in d.nodes
    ensures Ids(Create(d, name, source)) == Ids(d) + {d.nextId}
  {
    var e := Create(d, name, source);
    forall i | i in Ids(d) + {d.nextId}
      ensures i in Ids(e)
    {
      if i == d.nextId {
        assert e.nodes[name].id == i;
      } else {
        var n :| n in d.nodes && d.nodes[n].Subvol? && d.nodes[n].id == i;
        assert e.nodes[n] == d.nodes[n];
      }
    }
  }

  /** A new snapshot gets an id no subvolume ever had, and the content of its source. */
  lemma CreateKeepsValid<C>(d: Disk<C>, name: string, source: nat)
    requires Valid(d) && source in d.content && name !in d.nodes
    ensures Valid(Create(d, name, source))
  {
    CreateIds(d, name, source);
    BoundIdsBelow(d);
  }

  lemma BoundIdsBelow<C>(d: Disk<C>)
    requires Valid(d)
    ensures forall n :: n in d.nodes && d.nodes[n].Subvol? ==> d.nodes[n].id < d.nextId
  {
    forall n | n in d.nodes && d.nodes[n].Subvol?
      ensures d.nodes[n].id < d.nextId
    {
      BoundHasContent(d, n);
    }
  }

  lemma RemoveIds<C>(d: Disk<C>, names: set<string>)
    requires Valid(d)
    ensures Ids(Remove(d, names)) == Ids(d) - IdsOf(d, names)
  {
    var e := Remove(d, names);
    forall i | i in Ids(d) - IdsOf(d, names)
      ensures i in Ids(e)
    {
      var n :| n in d.nodes && d.nodes[n].Subvol? && d.nodes[n].id == i;
      assert n !in names;
      assert e.nodes[n] == d.nodes[n];
    }
  }

  lemma RemoveKeepsValid<C>(d: Disk<C>, names: set<string>)
    requires Valid(d) && d.mounted !in IdsOf(d, names)
    ensures Valid(Remove(d, names))
  {
    RemoveIds(d, names);
  }

  lemma SwapTwice(nodes: map<string, Node>, a: string, b: string)
    requires a in nodes && b in nodes
    ensures Swap(Swap(nodes, a, b), a, b) == nodes
  {
  }

  /** An exchange conserves the names, and the set of ids. */
  lemma ExchangeIds<C>(d: Disk<C>, a: string, b: string)
    requires a in d.nodes && b in d.nodes
    ensures Exchange(d, a, b).nodes.Keys == d.nodes.Keys
    ensures Ids(Exchange(d, a, b)) == Ids(d)
  {
  }

  lemma ExchangeKeepsValid<C>(d: Disk<C>, a: string, b: string)
    requires Valid(d) && a in d.nodes && b in d.nodes
    ensures Valid(Exchange(d, a, b))
  {
    ExchangeIds(d, a, b);
  }

  // --- an example ---

  /** The root subvolume and one snapshot. */
  function TwoSubvols<C>(root: string, snapshot: string, before: C, current: C): Disk<C> {
    Disk(map[root := Subvol(256), snapshot := Subvol(257)], map[256 := current, 257 := before], 256, 256, 258)
  }

  lemma TwoSubvolsValid<C>(root: string, snapshot: string, before: C, current: C)
    requires root != snapshot
    ensures Valid(TwoSubvols(root, snapshot, before, current))
  {
    var d := TwoSubvols(root, snapshot, before, current);
    assert d.nodes[root].id == 256 && d.nodes[snapshot].id == 257;
    assert root in d.nodes.Keys && snapshot in d.nodes.Keys;
  }
}
