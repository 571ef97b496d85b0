/** Retention of automatic snapshots: which ones go, said declaratively, and why sorting finds them. */
module Retention {
  import opened Wrappers
  import opened Store
  import opened AutoName
  import opened SubvolList

  /** A listing in any order: every subvolume once, and nothing else. */
  ghost predicate IsListing<C>(d: Disk<C>, l: seq<Entry>) {
    && (forall i, j :: 0 <= i < j < |l| ==> l[i] != l[j])
    && (forall e: Entry :: e in l <==> IdOf(d, e.path) == Some(e.id))
  }

  /** What the tool reads from a printed listing of the disk is a listing of the disk. */
  lemma PrintedListing<C>(d: Disk<C>, printed: seq<SubvolEntry>)
    requires IsListing(d, Used(printed)) && forall e :: e in printed ==> Printable(e)
    ensures ParseList(PrintList(printed)).Some? && IsListing(d, Used(ParseList(PrintList(printed)).value))
  {
    ListRoundTrip(printed);
  }

  predicate Evictable(e: Entry, protected: seq<string>) {
    IsAutoName(e.path) && e.path !in protected
  }

  // --- the declarative side ---

  /** The unprotected automatic snapshots. */
  ghost function Autos<C>(d: Disk<C>, protected: seq<string>): set<Entry> {
    set n | n in d.nodes && d.nodes[n].Subvol? && Evictable(Entry(d.nodes[n].id, n), protected)
      :: Entry(d.nodes[n].id, n)
  }

  ghost function Younger(autos: set<Entry>, e: Entry): set<Entry> {
    set a | a in autos && a.id > e.id
  }

  /** Those with at least max younger ones. */
  ghost function Victims(autos: set<Entry>, max: nat): set<Entry> {
    set e | e in autos && |Younger(autos, e)| >= max
  }

  ghost function Paths(entries: set<Entry>): set<string> {
    set e | e in entries :: e.path
  }

  ghost function Removable(entries: set<Entry>, stuck: set<nat>): set<Entry> {
    set e | e in entries && e.id !in stuck
  }

  /** The disk after retention with a limit (0 disables it), when the ids in stuck cannot be deleted. */
  ghost function Retained<C>(d: Disk<C>, protected: seq<string>, max: nat, stuck: set<nat>): Disk<C> {
    if max == 0 then d else Remove(d, Paths(Removable(Victims(Autos(d, protected), max), stuck)))
  }

  ghost predicate DistinctIds(entries: set<Entry>) {
    forall a, b :: a in entries && b in entries && a.id == b.id ==> a == b
  }

  lemma AutosAreListed<C>(d: Disk<C>, protected: seq<string>, e: Entry)
    ensures e in Autos(d, protected) <==> IdOf(d, e.path) == Some(e.id) && Evictable(e, protected)
  {
  }

  lemma AutosHaveDistinctIds<C>(d: Disk<C>, protected: seq<string>)
    requires Valid(d)
    ensures DistinctIds(Autos(d, protected))
  {
  }

  // --- the procedure: filter, sort by id, take from the front ---

  function Filter(entries: seq<Entry>, protected: seq<string>): seq<Entry> {
    if entries == [] then []
    else if Evictable(entries[0], protected) then [entries[0]] + Filter(entries[1..], protected)
    else Filter(entries[1..], protected)
  }

  function Insert(e: Entry, s: seq<Entry>): seq<Entry> {
    if s == [] || e.id <= s[0].id then [e] + s else [s[0]] + Insert(e, s[1..])
  }

  /** sort_by_key on the id. */
  function SortById(s: seq<Entry>): seq<Entry> {
    if s == [] then [] else Insert(s[0], SortById(s[1..]))
  }

  ghost predicate Ascending(s: seq<Entry>) {
    forall i, j :: 0 <= i < j < |s| ==> s[i].id < s[j].id
  }

  ghost function Elements(s: seq<Entry>): set<Entry> {
    set e | e in s
  }

  lemma {:induction false} InsertMembers(e: Entry, s: seq<Entry>)
    ensures |Insert(e, s)| == |s| + 1
    ensures forall x :: x in Insert(e, s) <==> x == e || x in s
  {
    if s != [] && e.id > s[0].id {
      InsertMembers(e, s[1..]);
      assert forall x :: x in s <==> x == s[0] || x in s[1..];
    }
  }

  /** Putting a lower id in front. */
  lemma AscendingCons(e: Entry, s: seq<Entry>)
    requires Ascending(s) && forall x :: x in s ==> x.id > e.id
    ensures Ascending([e] + s)
  {
  }

  lemma {:induction false} InsertKeeps(e: Entry, s: seq<Entry>)
    requires Ascending(s) && forall x :: x in s ==> x.id != e.id
    ensures Ascending(Insert(e, s)) && |Insert(e, s)| == |s| + 1
    ensures forall x :: x in Insert(e, s) <==> x == e || x in s
  {
    InsertMembers(e, s);
    if s != [] && e.id > s[0].id {
      InsertKeeps(e, s[1..]);
      InsertMembers(e, s[1..]);
      AscendingCons(s[0], Insert(e, s[1..]));
    } else {
      AscendingCons(e, s);
    }
  }

  ghost predicate NoSharedIds(s: seq<Entry>) {
    forall i, j :: 0 <= i < j < |s| ==> s[i].id != s[j].id
  }

  /** Sorting puts the same entries in order of id. */
  lemma {:induction false} SortedById(s: seq<Entry>)
    requires NoSharedIds(s)
    ensures Ascending(SortById(s)) && |SortById(s)| == |s|
    ensures forall x :: x in SortById(s) <==> x in s
  {
    if s != [] {
      var rest := s[1..];
      assert NoSharedIds(rest);
      SortedById(rest);
      forall x | x in SortById(rest)
        ensures x.id != s[0].id
      {
        var k :| 0 <= k < |rest| && rest[k] == x;
        assert s[k + 1] == x;
      }
      InsertKeeps(s[0], SortById(rest));
      assert forall x :: x in s <==> x == s[0] || x in rest;
    }
  }

  lemma {:induction false} FilterKeeps(entries: seq<Entry>, protected: seq<string>)
    ensures forall x :: x in Filter(entries, protected) <==> x in entries && Evictable(x, protected)
    ensures NoSharedIds(entries) ==> NoSharedIds(Filter(entries, protected))
  {
    if entries != [] {
      var rest := entries[1..];
      FilterKeeps(rest, protected);
      assert forall x :: x in entries <==> x == entries[0] || x in rest;
      assert NoSharedIds(entries) ==> NoSharedIds(rest);
      if NoSharedIds(entries) {
        forall x | x in rest
          ensures x.id != entries[0].id
        {
          var k :| 0 <= k < |rest| && rest[k] == x;
          assert entries[k + 1] == x;
        }
      }
    }
  }

  lemma ListingSharesNoIds<C>(d: Disk<C>, l: seq<Entry>)
    requires Valid(d) && IsListing(d, l)
    ensures NoSharedIds(l)
  {
  }

  /** Filtering and sorting a listing lines up the automatic snapshots, oldest first. */
  lemma LineUp<C>(d: Disk<C>, protected: seq<string>, l: seq<Entry>)
    requires Valid(d) && IsListing(d, l)
    ensures var s := SortById(Filter(l, protected));
      Ascending(s) && |s| == |Filter(l, protected)| && Elements(s) == Autos(d, protected)
  {
    ListingSharesNoIds(d, l);
    FilterKeeps(l, protected);
    SortedById(Filter(l, protected));
    forall e: Entry
      ensures e in SortById(Filter(l, protected)) <==> e in Autos(d, protected)
    {
      AutosAreListed(d, protected, e);
    }
  }

  lemma {:induction false} AscendingCount(s: seq<Entry>)
    requires Ascending(s)
    ensures |Elements(s)| == |s|
  {
    if s != [] {
      var rest := s[1..];
      AscendingCount(rest);
      assert s[0] !in rest;
      assert Elements(s) == {s[0]} + Elements(rest);
    }
  }

  lemma YoungerInLine(s: seq<Entry>, i: nat)
    requires Ascending(s) && i < |s|
    ensures |Younger(Elements(s), s[i])| == |s| - 1 - i
  {
    var tail := s[i + 1..];
    forall e: Entry
      ensures e in Younger(Elements(s), s[i]) <==> e in tail
    {
      if e in s && e.id > s[i].id {
        var k :| 0 <= k < |s| && s[k] == e;
        assert k > i;
        assert tail[k - i - 1] == e;
      }
    }
    assert Younger(Elements(s), s[i]) == Elements(tail);
    AscendingCount(tail);
  }

  /** The front of the line is exactly the set of those with at least max younger ones. */
  lemma FrontOfLine(s: seq<Entry>, max: nat)
    requires Ascending(s)
    ensures max <= |s| ==> Victims(Elements(s), max) == Elements(s[..|s| - max])
    ensures max >= |s| ==> Victims(Elements(s), max) == {}
  {
    forall i | 0 <= i < |s|
      ensures s[i] in Victims(Elements(s), max) <==> i + max < |s|
    {
      YoungerInLine(s, i);
    }
    if max <= |s| {
      forall e: Entry
        ensures e in Victims(Elements(s), max) <==> e in s[..|s| - max]
      {
        if e in s {
          var k :| 0 <= k < |s| && s[k] == e;
          if k + max < |s| {
            assert s[..|s| - max][k] == e;
          }
        }
      }
    }
  }

  /** Any set of entries with distinct ids can be lined up. */
  lemma {:induction false} CanLineUp(autos: set<Entry>) returns (s: seq<Entry>)
    requires DistinctIds(autos)
    ensures Ascending(s) && Elements(s) == autos && |s| == |autos|
  {
    if autos == {} {
      s := [];
    } else {
      var e :| e in autos;
      var rest := CanLineUp(autos - {e});
      assert forall x :: x in rest ==> x in Elements(rest);
      InsertKeeps(e, rest);
      s := Insert(e, rest);
    }
  }

  // --- what retention achieves ---

  lemma VictimCount(autos: set<Entry>, max: nat)
    requires DistinctIds(autos)
    ensures VictimsFit(autos, max)
  {
    var s := CanLineUp(autos);
    if |s| <= max {
      FrontOfLine(s, max);
      assert autos - {} == autos;
    } else {
      LineCount(s, max);
    }
  }

  /** As many victims as there are entries over the limit, all older than the rest. */
  ghost predicate VictimsFit(autos: set<Entry>, max: nat) {
    var v := Victims(autos, max);
    && v <= autos
    && |v| == (if |autos| <= max then 0 else |autos| - max)
    && |autos - v| == (if |autos| <= max then |autos| else max)
    && forall gone, kept :: gone in v && kept in autos - v ==> gone.id < kept.id
  }

  lemma LineCount(s: seq<Entry>, max: nat)
    requires Ascending(s) && max < |s|
    ensures VictimsFit(Elements(s), max)
  {
    var front := s[..|s| - max];
    FrontOfLine(s, max);
    AscendingCount(front);
    AscendingCount(s);
    VictimsAreOldest(s, |s| - max);
    assert |Elements(s) - Elements(front)| == |Elements(s)| - |Elements(front)|;
  }

  lemma VictimsAreOldest(s: seq<Entry>, n: nat)
    requires Ascending(s) && n <= |s|
    ensures forall v, k :: v in Elements(s[..n]) && k in Elements(s) - Elements(s[..n]) ==> v.id < k.id
  {
  }

  lemma AutosAfterRemoval<C>(d: Disk<C>, protected: seq<string>, gone: set<Entry>)
    requires gone <= Autos(d, protected)
    ensures Autos(Remove(d, Paths(gone)), protected) == Autos(d, protected) - gone
  {
    var after := Remove(d, Paths(gone));
    forall e: Entry
      ensures e in Autos(after, protected) <==> e in Autos(d, protected) - gone
    {
      AutosAreListed(d, protected, e);
      AutosAreListed(after, protected, e);
      if e in Autos(d, protected) && e.path in Paths(gone) {
        var g :| g in gone && g.path == e.path;
        AutosAreListed(d, protected, g);
        assert g == e;
      }
    }
  }

  /** Every other name keeps its node. */
  lemma OnlyVictimsGo<C>(d: Disk<C>, protected: seq<string>, max: nat, stuck: set<nat>, name: string)
    ensures var after := Retained(d, protected, max, stuck);
      && (name in after.nodes ==> name in d.nodes && after.nodes[name] == d.nodes[name])
      && (name in d.nodes && name !in after.nodes ==>
            max > 0 && IdOf(d, name).Some?
            && Entry(IdOf(d, name).value, name) in Removable(Victims(Autos(d, protected), max), stuck))
  {
  }

  /** What is left are the min(n, max) entries with the highest ids. */
  ghost predicate KeepsYoungest(before: set<Entry>, after: set<Entry>, max: nat) {
    && after <= before
    && |after| == (if |before| <= max then |before| else max)
    && forall gone, kept :: gone in before - after && kept in after ==> gone.id < kept.id
  }

  /** At most n - max entries went, each older than every one that was to be kept. */
  ghost predicate TakesOnlyOldest(before: set<Entry>, after: set<Entry>, max: nat) {
    && after <= before
    && |before - after| <= (if |before| <= max then 0 else |before| - max)
    && forall gone, kept :: gone in before - after && kept in before - Victims(before, max) ==> gone.id < kept.id
  }

  lemma WithoutVictims(before: set<Entry>, max: nat)
    requires DistinctIds(before)
    ensures KeepsYoungest(before, before - Victims(before, max), max)
  {
    VictimCount(before, max);
    assert before - (before - Victims(before, max)) == Victims(before, max);
  }

  lemma WithoutSomeVictims(before: set<Entry>, max: nat, gone: set<Entry>)
    requires DistinctIds(before) && gone <= Victims(before, max)
    ensures TakesOnlyOldest(before, before - gone, max)
  {
    VictimCount(before, max);
    Subset(gone, Victims(before, max));
    assert before - (before - gone) == gone;
  }

  lemma RetainedAutos<C>(d: Disk<C>, protected: seq<string>, max: nat, stuck: set<nat>)
    requires max >= 1
    ensures Autos(Retained(d, protected, max, stuck), protected)
      == Autos(d, protected) - Removable(Victims(Autos(d, protected), max), stuck)
  {
    AutosAfterRemoval(d, protected, Removable(Victims(Autos(d, protected), max), stuck));
  }

  /** With every deletion succeeding, exactly the oldest over the limit go. */
  lemma RetentionExact<C>(d: Disk<C>, protected: seq<string>, max: nat, stuck: set<nat>)
    requires Valid(d) && max >= 1
    requires forall v :: v in Victims(Autos(d, protected), max) ==> v.id !in stuck
    ensures KeepsYoungest(Autos(d, protected), Autos(Retained(d, protected, max, stuck), protected), max)
  {
    RetainedAutos(d, protected, max, stuck);
    assert Removable(Victims(Autos(d, protected), max), stuck) == Victims(Autos(d, protected), max);
    AutosHaveDistinctIds(d, protected);
    WithoutVictims(Autos(d, protected), max);
  }

  /** Whatever deletions fail, nothing that was to be kept goes, nor anything younger than it. */
  lemma RetentionPartial<C>(d: Disk<C>, protected: seq<string>, max: nat, stuck: set<nat>)
    requires Valid(d) && max >= 1
    ensures TakesOnlyOldest(Autos(d, protected), Autos(Retained(d, protected, max, stuck), protected), max)
  {
    RetainedAutos(d, protected, max, stuck);
    AutosHaveDistinctIds(d, protected);
    WithoutSomeVictims(Autos(d, protected), max, Removable(Victims(Autos(d, protected), max), stuck));
  }

  lemma Subset(a: set<Entry>, b: set<Entry>)
    requires a <= b
    ensures |a| <= |b|
  {
    assert b == a + (b - a);
  }

  lemma RetentionKeepsValid<C>(d: Disk<C>, protected: seq<string>, max: nat, stuck: set<nat>)
    requires Valid(d) && d.mounted in stuck
    ensures Valid(Retained(d, protected, max, stuck))
  {
    if max > 0 {
      var names := Paths(Removable(Victims(Autos(d, protected), max), stuck));
      assert forall n :: n in names ==> IdOf(d, n).Some? && IdOf(d, n).value !in stuck;
      RemoveKeepsValid(d, names);
    }
  }
}
