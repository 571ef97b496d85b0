/** Rollback: its outcomes, its inverse, and what a chain of rollbacks does to the names. */
module Rollbacks {
  import opened Wrappers
  import opened Verdict
  import opened Store
  import opened Operations

  /** The exchange stays although rollback failed. */
  ghost predicate LeavesBroken<C>(d: Disk<C>, conf: Conf, name: string, env: RollbackEnv) {
    Exchanges(d, conf, name, env) && !Completes(d, conf, name, env) && !env.undo
  }

  lemma RollbackKeepsValid<C>(d: Disk<C>, conf: Conf, name: string, env: RollbackEnv)
    requires Valid(d)
    ensures Valid(RollbackDisk(d, conf, name, env))
  {
    if Exchanges(d, conf, name, env) {
      ExchangeKeepsValid(d, conf.root.value, name);
      var e := Exchange(d, conf.root.value, name);
      assert Ids(e.(defaultId := 0)) == Ids(e);
      if d.nodes[name].Subvol? {
        assert Ids(e.(defaultId := d.nodes[name].id)) == Ids(e);
      }
    }
  }

  /** Whatever fails, no name and no id is gained or lost, and no content changes. */
  lemma RollbackConserves<C>(d: Disk<C>, conf: Conf, name: string, env: RollbackEnv)
    ensures var e := RollbackDisk(d, conf, name, env);
      && e.nodes.Keys == d.nodes.Keys && Ids(e) == Ids(d)
      && e.content == d.content && e.nextId == d.nextId && e.mounted == d.mounted
  {
  }

  /**
   Either exactly the two bindings are exchanged, with the default at the new root, or nothing
   changed: this holds if and only if no failed undo leaves two different nodes exchanged.
   */
  lemma AllOrNothing<C>(d: Disk<C>, conf: Conf, name: string, env: RollbackEnv)
    ensures var e := RollbackDisk(d, conf, name, env);
      && (Completes(d, conf, name, env) || e == d
          <==> LeavesBroken(d, conf, name, env) ==> d.nodes[conf.root.value] == d.nodes[name])
      && (Completes(d, conf, name, env) ==>
            var root := conf.root.value;
            && IdOf(e, root) == IdOf(d, name) == Some(e.defaultId)
            && IdOf(e, name) == IdOf(d, root)
            && forall n :: n in d.nodes && n != root && n != name ==> n in e.nodes && e.nodes[n] == d.nodes[n])
  {
    var e := RollbackDisk(d, conf, name, env);
    if LeavesBroken(d, conf, name, env) {
      var root := conf.root.value;
      assert e.nodes[name] == d.nodes[root];
      if d.nodes[root] == d.nodes[name] {
        assert e.nodes == d.nodes;
      }
    }
  }

  /** Set-default fails, and so does the undo. */
  const FAILED_UNDO := RollbackEnv(true, true, Pass, true, true, false, false, true, true)

  /** With two subvolumes that is a rollback which neither happened nor did not. */
  lemma FailedUndoBreaks<C>(root: string, snapshot: string, before: C, current: C)
    requires root != snapshot
    ensures var d, conf := TwoSubvols(root, snapshot, before, current), Conf(true, Some(root), [root]);
      var e := RollbackDisk(d, conf, snapshot, FAILED_UNDO);
      && Valid(d) && RootIsDefault(d, root)
      && !Completes(d, conf, snapshot, FAILED_UNDO) && e != d && !RootIsDefault(e, root)
  {
    var d, conf := TwoSubvols(root, snapshot, before, current), Conf(true, Some(root), [root]);
    TwoSubvolsValid(root, snapshot, before, current);
    DefaultFollowsRoot(d, conf, snapshot, FAILED_UNDO);
    AllOrNothing(d, conf, snapshot, FAILED_UNDO);
  }

  /** The default subvolume stays the root one, exactly unless a failed rollback cannot be undone. */
  lemma DefaultFollowsRoot<C>(d: Disk<C>, conf: Conf, name: string, env: RollbackEnv)
    requires Valid(d) && conf.root.Some? && RootIsDefault(d, conf.root.value)
    ensures RootIsDefault(RollbackDisk(d, conf, name, env), conf.root.value)
      <==> !LeavesBroken(d, conf, name, env) || name == conf.root.value
  {
  }

  /** Every step of this environment succeeds. */
  predicate Works(env: RollbackEnv) {
    && env.device && env.mount && Verified(env)
    && env.exchange && env.list && env.setDefault
  }

  /** Rolling back twice to one name is the identity. */
  lemma RollbackTwice<C>(d: Disk<C>, conf: Conf, name: string, first: RollbackEnv, second: RollbackEnv)
    requires conf.root.Some? && RootIsDefault(d, conf.root.value)
    requires Completes(d, conf, name, first) && Works(second)
    ensures RollbackDisk(RollbackDisk(d, conf, name, first), conf, name, second) == d
  {
  }

  // --- chains ---

  function Transpose(a: string, b: string, n: string): string {
    if n == a then b else if n == b then a else n
  }

  ghost predicate AllNamed(nodes: map<string, Node>, root: string, names: seq<string>) {
    root in nodes && nodes[root].Subvol? && forall n :: n in names ==> n in nodes && nodes[n].Subvol?
  }

  /** Where a node that ends up at n started. */
  function Origin(root: string, names: seq<string>, n: string): string {
    if names == [] then n else Transpose(root, names[0], Origin(root, names[1..], n))
  }

  /** Where a node that started at n ends up. */
  function Destination(root: string, names: seq<string>, n: string): string {
    if names == [] then n else Destination(root, names[1..], Transpose(root, names[0], n))
  }

  lemma {:induction false} OriginAndDestination(root: string, names: seq<string>, n: string)
    ensures Destination(root, names, Origin(root, names, n)) == n
    ensures Origin(root, names, Destination(root, names, n)) == n
  {
    if names != [] {
      OriginAndDestination(root, names[1..], n);
      OriginAndDestination(root, names[1..], Transpose(root, names[0], n));
    }
  }

  ghost function RollbackAll<C>(d: Disk<C>, conf: Conf, names: seq<string>, env: RollbackEnv): Disk<C>
    decreases |names|
  {
    if names == [] then d else RollbackAll(RollbackDisk(d, conf, names[0], env), conf, names[1..], env)
  }

  lemma SwapAt(nodes: map<string, Node>, a: string, b: string, n: string)
    requires a in nodes && b in nodes && n in nodes
    ensures Transpose(a, b, n) in nodes && Swap(nodes, a, b)[n] == nodes[Transpose(a, b, n)]
  {
  }

  lemma RollbackOnce<C>(d: Disk<C>, conf: Conf, names: seq<string>, env: RollbackEnv)
    requires Works(env) && conf.hasRoot && conf.root.Some? && names != []
    requires AllNamed(d.nodes, conf.root.value, names)
    ensures names[0] in d.nodes
    ensures var e := RollbackDisk(d, conf, names[0], env);
      && e.nodes == Swap(d.nodes, conf.root.value, names[0])
      && e.nodes.Keys == d.nodes.Keys && AllNamed(e.nodes, conf.root.value, names[1..])
  {
  }

  /** A chain of rollbacks permutes the bindings: each node moves from its origin to its destination. */
  lemma {:induction false} ChainPermutes<C>(d: Disk<C>, conf: Conf, names: seq<string>, env: RollbackEnv, n: string)
    requires Works(env) && conf.hasRoot && conf.root.Some? && AllNamed(d.nodes, conf.root.value, names)
    requires n in d.nodes
    ensures var e := RollbackAll(d, conf, names, env);
      && e.nodes.Keys == d.nodes.Keys
      && Origin(conf.root.value, names, n) in d.nodes
      && e.nodes[n] == d.nodes[Origin(conf.root.value, names, n)]
    decreases |names|
  {
    if names != [] {
      RollbackOnce(d, conf, names, env);
      ChainPermutes(RollbackDisk(d, conf, names[0], env), conf, names[1..], env, n);
      SwapAt(d.nodes, conf.root.value, names[0], Origin(conf.root.value, names[1..], n));
    }
  }

  lemma {:induction false} ChainKeepsNamed<C>(
    d: Disk<C>, conf: Conf, names: seq<string>, last: string, env: RollbackEnv)
    requires Works(env) && conf.hasRoot && conf.root.Some?
    requires AllNamed(d.nodes, conf.root.value, names + [last])
    ensures AllNamed(RollbackAll(d, conf, names, env).nodes, conf.root.value, [last])
    decreases |names|
  {
    if names == [] {
      assert names + [last] == [last];
    } else {
      assert (names + [last])[1..] == names[1..] + [last];
      RollbackOnce(d, conf, names + [last], env);
      ChainKeepsNamed(RollbackDisk(d, conf, names[0], env), conf, names[1..], last, env);
    }
  }

  lemma {:induction false} RollbackAllSnoc<C>(
    d: Disk<C>, conf: Conf, names: seq<string>, last: string, env: RollbackEnv)
    ensures RollbackAll(d, conf, names + [last], env)
      == RollbackDisk(RollbackAll(d, conf, names, env), conf, last, env)
    decreases |names|
  {
    if names == [] {
      assert [] + [last] == [last];
      assert [last][1..] == [];
    } else {
      assert (names + [last])[1..] == names[1..] + [last];
      RollbackAllSnoc(RollbackDisk(d, conf, names[0], env), conf, names[1..], last, env);
    }
  }

  /** The last target ends up at root and is the default. */
  lemma ChainEndsAtRoot<C>(d: Disk<C>, conf: Conf, names: seq<string>, last: string, env: RollbackEnv)
    requires Works(env) && conf.hasRoot && conf.root.Some?
    requires AllNamed(d.nodes, conf.root.value, names + [last])
    ensures var before, after := RollbackAll(d, conf, names, env), RollbackAll(d, conf, names + [last], env);
      && IdOf(before, last).Some?
      && IdOf(after, conf.root.value) == IdOf(before, last) == Some(after.defaultId)
  {
    ChainKeepsNamed(d, conf, names, last, env);
    RollbackAllSnoc(d, conf, names, last, env);
    assert last in [last];
    AllOrNothing(RollbackAll(d, conf, names, env), conf, last, env);
  }
}
