/**
 The boot-chain gate: the checks, and the declarative chain their verdict stands for.
 The host's files and the answers of blkid, findmnt and btrfs are given.
 */
module Gate {
  import opened Wrappers
  import opened Verdict
  import opened Text
  import opened Scanners
  import opened Fstab
  import opened EspStub
  import SubvolList
  import Resolve

  /** The result of reading a file as text. */
  datatype Read = Content(text: string) | Denied | Failed

  /**
   Sizes of the paths that exist, the readable files and directories, and per device or mount point
   what the tools report; what is missing from a map is a tool that failed.
   */
  datatype Host = Host(
    sizes: map<string, nat>,
    texts: map<string, Read>,
    dirs: map<string, seq<string>>,
    fstypes: map<string, FsType>,
    mounts: map<DeviceSpec, string>,
    resolvable: set<DeviceSpec>,
    subvols: map<string, seq<SubvolList.Entry>>,
    defaults: map<string, nat>)

  const EFI_SUFFIX := "x64"
  const ESP_DIR := "boot/efi/EFI/fedora"
  const GRUB_CFG := "boot/grub2/grub.cfg"
  const BLS_DIR := "boot/loader/entries"
  const FSTAB := "etc/fstab"
  const SYSTEMD := "usr/lib/systemd/systemd"

  /** Path::join for a relative path. */
  function At(root: string, rel: string): string {
    if root == "" || root[|root| - 1] == '/' then root + rel else root + "/" + rel
  }

  function ReadOf(h: Host, path: string): Read {
    if path in h.texts then h.texts[path] else Failed
  }

  predicate NonEmptyFile(h: Host, path: string) {
    path in h.sizes && h.sizes[path] > 0
  }

  predicate FileContains(h: Host, path: string, needle: string) {
    ReadOf(h, path).Content? && Contains(ReadOf(h, path).text, needle)
  }

  predicate Resolvable(h: Host, spec: DeviceSpec) {
    spec.Path? || spec in h.resolvable
  }

  predicate SubvolExists(h: Host, spec: DeviceSpec, name: string) {
    && spec in h.mounts && h.mounts[spec] in h.subvols
    && exists e :: e in h.subvols[h.mounts[spec]] && e.path == name
  }

  // --- how GRUB resolves paths ---

  datatype GrubContext = GrubContext(fstype: FsType, btrfsRelative: bool, mountPoint: string)

  datatype GrubError = PermissionDenied | OtherError

  function EspCfg(root: string): string {
    At(At(root, ESP_DIR), "grub.cfg")
  }

  function ReadStub(h: Host, path: string): Result<Stub, GrubError> {
    match ReadOf(h, path)
    case Denied => Err(PermissionDenied)
    case Failed => Err(OtherError)
    case Content(text) =>
      match EspStub.Parse(text)
      case Ok(stub) => Ok(stub)
      case Err(_) => Err(OtherError)
  }

  function BlkidFstype(h: Host, uuid: string): FsType {
    if uuid in h.fstypes then h.fstypes[uuid] else FsType.Other("unknown")
  }

  function FromSystem(h: Host, root: string): Result<GrubContext, GrubError> {
    match ReadStub(h, EspCfg(root))
    case Err(e) => Err(e)
    case Ok(stub) =>
      if Uuid(stub.bootUuid) in h.mounts then
        Ok(GrubContext(BlkidFstype(h, stub.bootUuid), stub.btrfsRelative, h.mounts[Uuid(stub.bootUuid)]))
      else Err(OtherError)
  }

  /** The ESP is the live system's; paths resolve under the snapshot. */
  function ForSnapshot(h: Host, root: string): Result<GrubContext, GrubError> {
    match ReadStub(h, EspCfg("/"))
    case Err(e) => Err(e)
    case Ok(stub) => Ok(GrubContext(BlkidFstype(h, stub.bootUuid), stub.btrfsRelative, root))
  }

  function TrimSlashes(path: string): string {
    if path != "" && path[0] == '/' then TrimSlashes(path[1..]) else path
  }

  predicate GrubFinds(h: Host, g: GrubContext, path: string) {
    At(g.mountPoint, TrimSlashes(path)) in h.sizes
  }

  // --- some, all and the first of a sequence ---

  ghost predicate SomeOf<T(!new)>(f: T -> bool, s: seq<T>) {
    exists x :: x in s && f(x)
  }

  ghost predicate AllOf<T(!new)>(f: T -> bool, s: seq<T>) {
    forall x :: x in s ==> f(x)
  }

  /** The first element that has a value has this one. */
  ghost predicate FirstIs<T, V>(f: T -> Option<V>, s: seq<T>, v: V) {
    exists i :: 0 <= i < |s| && f(s[i]) == Some(v) && forall j :: 0 <= j < i ==> f(s[j]) == None
  }

  ghost function Count<T>(f: T -> bool, s: seq<T>): nat {
    if s == [] then 0 else Count(f, s[..|s| - 1]) + if f(s[|s| - 1]) then 1 else 0
  }

  lemma {:induction false} CountExact<T(!new)>(f: T -> bool, s: seq<T>)
    ensures Count(f, s) <= |s|
    ensures Count(f, s) > 0 <==> SomeOf(f, s)
    ensures Count(f, s) == |s| <==> AllOf(f, s)
  {
    if s != [] {
      var front, last := s[..|s| - 1], s[|s| - 1];
      CountExact(f, front);
      assert forall x :: x in s <==> x in front || x == last;
    }
  }

  lemma CountNext<T>(f: T -> bool, s: seq<T>, i: nat)
    requires i < |s|
    ensures Count(f, s[..i + 1]) == Count(f, s[..i]) + if f(s[i]) then 1 else 0
  {
    assert s[..i + 1][..i] == s[..i];
  }

  // --- the declarative chain ---

  predicate IsConf(name: string) {
    |name| > 5 && name[|name| - 5..] == ".conf"
  }

  function ConfPaths(dir: string, names: seq<string>): seq<string> {
    if names == [] then []
    else (if IsConf(names[0]) then [At(dir, names[0])] else []) + ConfPaths(dir, names[1..])
  }

  /** The boot entries; None when their directory cannot be read. */
  function Confs(h: Host, root: string): Option<seq<string>> {
    var dir := At(root, BLS_DIR);
    if dir in h.dirs then Some(ConfPaths(dir, h.dirs[dir])) else None
  }

  ghost predicate InitrdFound(h: Host, g: GrubContext, value: string) {
    forall t :: t in SplitWs(value) ==> "$" <= t || GrubFinds(h, g, t)
  }

  /** Kernel, every initrd file and a root parameter. */
  ghost predicate EntryBoots(h: Host, g: GrubContext, conf: string) {
    ReadOf(h, conf).Content? && TextBoots(h, g, ReadOf(h, conf).text)
  }

  ghost predicate TextBoots(h: Host, g: GrubContext, text: string) {
    ValuesBoot(h, g, FieldValues(text, "linux"), FieldValues(text, "options"), FieldValues(text, "initrd"))
  }

  ghost predicate ValuesBoot(h: Host, g: GrubContext, linux: seq<string>, options: seq<string>, initrd: seq<string>) {
    && linux != [] && GrubFinds(h, g, linux[0])
    && options != [] && Contains(options[0], "root=")
    && initrd != [] && forall v :: v in initrd ==> InitrdFound(h, g, v)
  }

  ghost function Boots(h: Host, g: GrubContext): string -> bool {
    conf => EntryBoots(h, g, conf)
  }

  ghost predicate SomeEntryBoots(h: Host, root: string, g: GrubContext) {
    Confs(h, root).Some? && SomeOf(Boots(h, g), Confs(h, root).value)
  }

  ghost predicate SomeEntryBroken(h: Host, root: string, g: GrubContext) {
    Confs(h, root).Some? && !AllOf(Boots(h, g), Confs(h, root).value)
  }

  ghost predicate EspComplete(h: Host, root: string) {
    && NonEmptyFile(h, At(At(root, ESP_DIR), "shim" + EFI_SUFFIX + ".efi"))
    && NonEmptyFile(h, At(At(root, ESP_DIR), "grub" + EFI_SUFFIX + ".efi"))
    && NonEmptyFile(h, EspCfg(root))
    && FileContains(h, EspCfg(root), "--fs-uuid") && FileContains(h, EspCfg(root), "configfile")
  }

  ghost predicate GrubConfigured(h: Host, root: string) {
    NonEmptyFile(h, At(root, GRUB_CFG)) && FileContains(h, At(root, GRUB_CFG), "blscfg")
  }

  function RootName(h: Host, root: string): Option<string> {
    match ReadOf(h, At(root, FSTAB))
    case Content(text) => RootSubvolName(text)
    case _ => None
  }

  function IdUnder(name: string): SubvolList.Entry -> Option<nat> {
    (e: SubvolList.Entry) => if e.path == name then Some(e.id) else None
  }

  /** GRUB's subvolume is the one fstab mounts at "/". */
  ghost predicate DefaultIsRoot(h: Host, root: string, mountPoint: string) {
    && RootName(h, root).Some? && mountPoint in h.defaults && mountPoint in h.subvols
    && FirstIs(IdUnder(RootName(h, root).value), h.subvols[mountPoint], h.defaults[mountPoint])
  }

  /** The lookup by name finds the id under which that name is listed first. */
  lemma {:induction false} LookupIsFirst(l: seq<SubvolList.Entry>, name: string, id: nat)
    ensures FirstIs(IdUnder(name), l, id)
       <==> Resolve.FindPath(l, name).Some? && Resolve.FindPath(l, name).value.id == id
  {
    if l != [] {
      LookupIsFirst(l[1..], name, id);
      if l[0].path == name {
        FirstIsUnique(IdUnder(name), l, 0);
      } else {
        FirstLater(IdUnder(name), l, id);
      }
    }
  }

  lemma FirstLater<T, V>(f: T -> Option<V>, s: seq<T>, v: V)
    requires s != [] && f(s[0]) == None
    ensures FirstIs(f, s, v) <==> FirstIs(f, s[1..], v)
  {
    if FirstIs(f, s, v) {
      var i :| 0 <= i < |s| && f(s[i]) == Some(v) && forall j :: 0 <= j < i ==> f(s[j]) == None;
      assert s[1..][i - 1] == s[i];
    }
    if FirstIs(f, s[1..], v) {
      var i :| 0 <= i < |s[1..]| && f(s[1..][i]) == Some(v) && forall j :: 0 <= j < i ==> f(s[1..][j]) == None;
      assert forall j :: 0 < j < i + 1 ==> s[j] == s[1..][j - 1];
      assert f(s[i + 1]) == Some(v);
    }
  }

  ghost predicate UsesDefault(g: GrubContext) {
    g.fstype == Btrfs && g.btrfsRelative
  }

  function Head(vs: seq<string>): Option<string> {
    if vs == [] then None else Some(vs[0])
  }

  /** What reading an entry says about the root UUID; an unreadable one says there is none. */
  ghost function RootChoice(h: Host): string -> Option<Option<string>> {
    conf =>
      match ReadOf(h, conf)
      case Content(text) =>
        var first := Head(FieldValues(text, "options"));
        if first.Some? then Some(RootUuid(first.value)) else None
      case _ => Some(None)
  }

  ghost predicate HasRootUuid(h: Host, root: string, uuid: string) {
    Confs(h, root).Some? && FirstIs(RootChoice(h), Confs(h, root).value, Some(uuid))
  }

  ghost predicate RootMountable(h: Host, root: string) {
    && (exists uuid: string :: HasRootUuid(h, root, uuid) && RootOn(h, root, uuid))
    && NonEmptyFile(h, At(root, SYSTEMD))
  }

  ghost predicate RootOn(h: Host, root: string, uuid: string) {
    && uuid in h.fstypes && h.fstypes[uuid] == Btrfs
    && RootName(h, root).Some? && SubvolExists(h, Uuid(uuid), RootName(h, root).value)
  }

  predicate Required(e: FstabEntry) {
    !Contains(e.mntops, "nofail") && e.vfstype != FsType.Swap && e.file != "none" && e.file != "swap"
  }

  predicate Mounts(h: Host, e: FstabEntry) {
    && Resolvable(h, e.spec)
    && (e.vfstype == Btrfs && MountOption(e.mntops, "subvol").Some? ==>
          SubvolExists(h, e.spec, MountOption(e.mntops, "subvol").value))
  }

  function MountsIfRequired(h: Host): FstabEntry -> bool {
    e => Required(e) ==> Mounts(h, e)
  }

  function NotRequired(): FstabEntry -> bool {
    e => !Required(e)
  }

  ghost predicate SystemMounts(h: Host, root: string) {
    ReadOf(h, At(root, FSTAB)).Content? && AllOf(MountsIfRequired(h), Entries(ReadOf(h, At(root, FSTAB)).text))
  }

  ghost predicate NothingRequired(h: Host, root: string) {
    ReadOf(h, At(root, FSTAB)).Content? && AllOf(NotRequired(), Entries(ReadOf(h, At(root, FSTAB)).text))
  }

  /** What the live system and a snapshot have in common. */
  ghost predicate CommonChain(h: Host, root: string, g: GrubContext) {
    && GrubConfigured(h, root) && SomeEntryBoots(h, root, g) && RootMountable(h, root) && SystemMounts(h, root)
  }

  ghost predicate BootChain(h: Host, root: string, g: GrubContext) {
    && EspComplete(h, root) && CommonChain(h, root, g)
    && (UsesDefault(g) ==> DefaultIsRoot(h, root, g.mountPoint))
  }

  ghost predicate Doubtful(h: Host, root: string, g: GrubContext) {
    SomeEntryBroken(h, root, g) || NothingRequired(h, root)
  }

  // --- the checks; true is a check that passed ---

  predicate Passes(results: seq<bool>) {
    forall i :: 0 <= i < |results| ==> results[i]
  }

  method EvaluateChecks(checks: seq<seq<bool>>) returns (s: BootStatus)
    ensures s.Fail? <==> exists i :: 0 <= i < |checks| && !Passes(checks[i])
    ensures s.Warn? <==> !s.Fail? && [] in checks
    ensures !s.Inaccessible?
  {
    var failures := 0;
    var warned := false;
    for i := 0 to |checks|
      invariant failures >= 0
      invariant failures > 0 <==> exists k :: 0 <= k < i && !Passes(checks[k])
      invariant warned <==> [] in checks[..i]
    {
      assert checks[..i + 1] == checks[..i] + [checks[i]];
      var results := checks[i];
      if results == [] {
        warned := true;
        continue;
      }
      var failed := 0;
      for j := 0 to |results|
        invariant failed >= 0
        invariant failed > 0 <==> exists k :: 0 <= k < j && !results[k]
      {
        if !results[j] {
          failed := failed + 1;
        }
      }
      failures := failures + failed;
    }
    assert checks[..|checks|] == checks;
    return if failures > 0 then Fail else if warned then Warn else Pass;
  }

  method CheckEsp(h: Host, root: string) returns (results: seq<bool>)
    ensures results != [] && (Passes(results) <==> EspComplete(h, root))
  {
    var dir := At(root, ESP_DIR);
    var names := ["shim" + EFI_SUFFIX + ".efi", "grub" + EFI_SUFFIX + ".efi"];
    results := [];
    for i := 0 to |names|
      invariant |results| == i
      invariant forall k :: 0 <= k < i ==> results[k] == NonEmptyFile(h, At(dir, names[k]))
    {
      results := results + [NonEmptyFile(h, At(dir, names[i]))];
    }
    var cfg := At(dir, "grub.cfg");
    results := results
      + [NonEmptyFile(h, cfg), FileContains(h, cfg, "--fs-uuid"), FileContains(h, cfg, "configfile")];
    assert names[0] == "shim" + EFI_SUFFIX + ".efi" && names[1] == "grub" + EFI_SUFFIX + ".efi";
    assert Passes(results) ==> results[0] && results[1] && results[2] && results[3] && results[4];
  }

  method CheckDefaultSubvol(h: Host, root: string, mountPoint: string) returns (ok: bool)
    ensures ok <==> DefaultIsRoot(h, root, mountPoint)
  {
    if mountPoint !in h.defaults {
      return false;
    }
    match ReadOf(h, At(root, FSTAB)) {
      case Content(text) =>
        var name := RootSubvolName(text);
        if name.None? || mountPoint !in h.subvols {
          return false;
        }
        var found := Resolve.FindPath(h.subvols[mountPoint], name.value);
        LookupIsFirst(h.subvols[mountPoint], name.value, h.defaults[mountPoint]);
        return found.Some? && found.value.id == h.defaults[mountPoint];
      case _ => return false;
    }
  }

  method CheckGrubConfig(h: Host, root: string, g: GrubContext) returns (results: seq<bool>)
    ensures results != []
    ensures Passes(results) <==>
      GrubConfigured(h, root) && (UsesDefault(g) ==> DefaultIsRoot(h, root, g.mountPoint))
  {
    var cfg := At(root, GRUB_CFG);
    results := [NonEmptyFile(h, cfg), FileContains(h, cfg, "blscfg")];
    if g.fstype == Btrfs && g.btrfsRelative {
      var ok := CheckDefaultSubvol(h, root, g.mountPoint);
      results := results + [ok];
    }
    assert Passes(results) ==> results[0] && results[1] && (|results| == 3 ==> results[2]);
  }

  method CheckInitrd(h: Host, g: GrubContext, value: string) returns (ok: bool)
    ensures ok <==> InitrdFound(h, g, value)
  {
    var tokens := SplitWs(value);
    for i := 0 to |tokens|
      invariant forall k :: 0 <= k < i ==> "$" <= tokens[k] || GrubFinds(h, g, tokens[k])
    {
      if "$" <= tokens[i] {
        continue;
      }
      if !GrubFinds(h, g, tokens[i]) {
        return false;
      }
    }
    return true;
  }

  method CheckInitrds(h: Host, g: GrubContext, values: seq<string>) returns (ok: bool)
    ensures ok <==> forall v :: v in values ==> InitrdFound(h, g, v)
  {
    for i := 0 to |values|
      invariant forall v :: v in values[..i] ==> InitrdFound(h, g, v)
    {
      var found := CheckInitrd(h, g, values[i]);
      if !found {
        return false;
      }
      assert values[..i + 1] == values[..i] + [values[i]];
    }
    assert values[..|values|] == values;
    return true;
  }

  /** The checks on what was read from an entry. */
  method CheckValues(h: Host, g: GrubContext, linux: Option<string>, options: Option<string>, initrd: seq<string>,
                     ghost linuxAll: seq<string>, ghost optionsAll: seq<string>) returns (ok: bool)
    requires linux == Head(linuxAll) && options == Head(optionsAll)
    ensures ok <==> ValuesBoot(h, g, linuxAll, optionsAll, initrd)
  {
    if linux.None? || options.None? {
      return false;
    }
    if !GrubFinds(h, g, linux.value) {
      return false;
    }
    if initrd == [] {
      return false;
    }
    var found := CheckInitrds(h, g, initrd);
    if !found {
      return false;
    }
    return Contains(options.value, "root=");
  }

  method FirstValue(text: string, key: string) returns (value: Option<string>)
    requires '\n' !in key
    ensures value == Head(FieldValues(text, key))
  {
    value := BlsField(text, key);
  }

  method ReadFields(text: string) returns (linux: Option<string>, options: Option<string>, initrd: seq<string>)
    ensures linux == Head(FieldValues(text, "linux")) && options == Head(FieldValues(text, "options"))
    ensures initrd == FieldValues(text, "initrd")
  {
    linux := FirstValue(text, "linux");
    options := FirstValue(text, "options");
    initrd := BlsFieldAll(text, "initrd");
  }

  method ValidateText(h: Host, g: GrubContext, text: string) returns (ok: bool)
    ensures ok <==> TextBoots(h, g, text)
  {
    var linux, options, initrd := ReadFields(text);
    ok := CheckValues(h, g, linux, options, initrd, FieldValues(text, "linux"), FieldValues(text, "options"));
  }

  method ValidateBlsEntry(h: Host, g: GrubContext, conf: string) returns (ok: bool)
    ensures ok <==> EntryBoots(h, g, conf)
  {
    if !ReadOf(h, conf).Content? {
      return false;
    }
    ok := ValidateText(h, g, ReadOf(h, conf).text);
  }

  method CountValid(h: Host, g: GrubContext, confs: seq<string>) returns (valid: nat)
    ensures valid == Count(Boots(h, g), confs)
  {
    valid := 0;
    for i := 0 to |confs|
      invariant valid == Count(Boots(h, g), confs[..i])
    {
      CountNext(Boots(h, g), confs, i);
      var ok := ValidateBlsEntry(h, g, confs[i]);
      if ok {
        valid := valid + 1;
      }
    }
    assert confs[..|confs|] == confs;
  }

  /** Empty when some but not all entries are valid. */
  method CheckBlsEntries(h: Host, root: string, g: GrubContext) returns (results: seq<bool>)
    ensures Passes(results) <==> SomeEntryBoots(h, root, g)
    ensures results == [] <==> SomeEntryBoots(h, root, g) && SomeEntryBroken(h, root, g)
  {
    var listed := Confs(h, root);
    if listed.None? || listed.value == [] {
      results := [false];
      assert !results[0];
      return;
    }
    var confs := listed.value;
    var valid := CountValid(h, g, confs);
    CountExact(Boots(h, g), confs);
    if valid == |confs| {
      return [true];
    }
    if valid > 0 {
      return [];
    }
    results := seq(|confs| + 1, _ => false);
    assert !results[0];
  }

  method ReadChoice(h: Host, conf: string) returns (choice: Option<Option<string>>)
    ensures choice == RootChoice(h)(conf)
  {
    if !ReadOf(h, conf).Content? {
      return Some(None);
    }
    var options := FirstValue(ReadOf(h, conf).text, "options");
    return if options.Some? then Some(RootUuid(options.value)) else None;
  }

  method FirstChoice(h: Host, confs: seq<string>) returns (uuid: Option<string>)
    ensures forall u :: uuid == Some(u) <==> FirstIs(RootChoice(h), confs, Some(u))
  {
    for i := 0 to |confs|
      invariant forall j :: 0 <= j < i ==> RootChoice(h)(confs[j]) == None
    {
      var choice := ReadChoice(h, confs[i]);
      if choice.Some? {
        FirstIsUnique(RootChoice(h), confs, i);
        return choice.value;
      }
    }
    return None;
  }

  method ExtractRootUuid(h: Host, root: string) returns (uuid: Option<string>)
    ensures forall u :: uuid == Some(u) <==> HasRootUuid(h, root, u)
  {
    var listed := Confs(h, root);
    if listed.None? {
      return None;
    }
    uuid := FirstChoice(h, listed.value);
  }

  lemma FirstIsUnique<T, V(!new)>(f: T -> Option<V>, s: seq<T>, i: nat)
    requires i < |s| && f(s[i]).Some? && forall j :: 0 <= j < i ==> f(s[j]) == None
    ensures forall v :: FirstIs(f, s, v) <==> f(s[i]) == Some(v)
  {
  }

  /** Everything but the root UUID. */
  method CheckRootOn(h: Host, root: string, uuid: string) returns (results: seq<bool>)
    ensures results != [] && (Passes(results) <==> RootOn(h, root, uuid) && NonEmptyFile(h, At(root, SYSTEMD)))
  {
    results := [uuid in h.fstypes && h.fstypes[uuid] == Btrfs];
    var name := RootName(h, root);
    if name.None? {
      results := results + [false];
      assert !results[1];
      return;
    }
    results := results + [SubvolExists(h, Uuid(uuid), name.value)];
    results := results + [NonEmptyFile(h, At(root, SYSTEMD))];
    assert Passes(results) ==> results[0] && results[1] && results[2];
  }

  method CheckRootMountable(h: Host, root: string) returns (results: seq<bool>)
    ensures results != [] && (Passes(results) <==> RootMountable(h, root))
  {
    var uuid := ExtractRootUuid(h, root);
    if uuid.None? {
      results := [false];
      assert !results[0];
      return;
    }
    results := CheckRootOn(h, root, uuid.value);
    OnlyRootUuid(h, root, uuid.value);
  }

  /** There is only one root UUID to choose from. */
  lemma OnlyRootUuid(h: Host, root: string, uuid: string)
    requires forall u :: Some(uuid) == Some(u) <==> HasRootUuid(h, root, u)
    ensures RootMountable(h, root) <==> RootOn(h, root, uuid) && NonEmptyFile(h, At(root, SYSTEMD))
  {
    assert HasRootUuid(h, root, uuid);
  }

  /** One result for each required entry. */
  method CheckEntries(h: Host, entries: seq<FstabEntry>) returns (results: seq<bool>)
    ensures Passes(results) <==> AllOf(MountsIfRequired(h), entries)
    ensures results == [] <==> AllOf(NotRequired(), entries)
  {
    results := [];
    for i := 0 to |entries|
      invariant Passes(results) <==> AllOf(MountsIfRequired(h), entries[..i])
      invariant results == [] <==> AllOf(NotRequired(), entries[..i])
    {
      AllOfNext(MountsIfRequired(h), entries, i);
      AllOfNext(NotRequired(), entries, i);
      if !Required(entries[i]) {
        continue;
      }
      PassesNext(results, Mounts(h, entries[i]));
      results := results + [Mounts(h, entries[i])];
    }
    assert entries[..|entries|] == entries;
  }

  lemma AllOfNext<T(!new)>(f: T -> bool, s: seq<T>, i: nat)
    requires i < |s|
    ensures AllOf(f, s[..i + 1]) <==> AllOf(f, s[..i]) && f(s[i])
  {
    assert s[..i + 1] == s[..i] + [s[i]];
    assert s[i] in s[..i + 1];
  }

  /** Empty when fstab requires no mount. */
  method CheckFstabMounts(h: Host, root: string) returns (results: seq<bool>)
    ensures Passes(results) <==> SystemMounts(h, root)
    ensures results == [] <==> NothingRequired(h, root)
  {
    if !ReadOf(h, At(root, FSTAB)).Content? {
      results := [false];
      assert !results[0];
      return;
    }
    results := CheckEntries(h, Entries(ReadOf(h, At(root, FSTAB)).text));
  }

  lemma PassesNext(results: seq<bool>, ok: bool)
    ensures Passes(results + [ok]) <==> Passes(results) && ok
  {
    assert (results + [ok])[|results|] == ok;
    assert forall k :: 0 <= k < |results| ==> (results + [ok])[k] == results[k];
  }

  lemma FiveGroups(a: seq<bool>, b: seq<bool>, c: seq<bool>, d: seq<bool>, e: seq<bool>)
    ensures var checks := [a, b, c, d, e];
      (exists i :: 0 <= i < |checks| && !Passes(checks[i]))
      <==> !Passes(a) || !Passes(b) || !Passes(c) || !Passes(d) || !Passes(e)
    ensures [] in [a, b, c, d, e] <==> a == [] || b == [] || c == [] || d == [] || e == []
  {
    var checks := [a, b, c, d, e];
    assert checks[0] == a && checks[1] == b && checks[2] == c && checks[3] == d && checks[4] == e;
  }

  lemma FourGroups(a: seq<bool>, b: seq<bool>, c: seq<bool>, d: seq<bool>)
    ensures var checks := [a, b, c, d];
      (exists i :: 0 <= i < |checks| && !Passes(checks[i]))
      <==> !Passes(a) || !Passes(b) || !Passes(c) || !Passes(d)
    ensures [] in [a, b, c, d] <==> a == [] || b == [] || c == [] || d == []
  {
    var checks := [a, b, c, d];
    assert checks[0] == a && checks[1] == b && checks[2] == c && checks[3] == d;
  }

  method CheckSystem(h: Host, root: string, g: GrubContext) returns (s: BootStatus)
    ensures s.Pass? || s.Warn? <==> BootChain(h, root, g)
    ensures s.Warn? <==> BootChain(h, root, g) && Doubtful(h, root, g)
    ensures !s.Inaccessible?
  {
    var esp := CheckEsp(h, root);
    var grub := CheckGrubConfig(h, root, g);
    var bls := CheckBlsEntries(h, root, g);
    var mountable := CheckRootMountable(h, root);
    var system := CheckFstabMounts(h, root);
    s := EvaluateChecks([esp, grub, bls, mountable, system]);
    FiveGroups(esp, grub, bls, mountable, system);
  }

  method CheckSnapshot(h: Host, root: string, g: GrubContext) returns (s: BootStatus)
    ensures s.Pass? || s.Warn? <==> CommonChain(h, root, g)
    ensures s.Warn? <==> CommonChain(h, root, g) && Doubtful(h, root, g)
    ensures !s.Inaccessible?
  {
    var cfg := At(root, GRUB_CFG);
    var grub := [NonEmptyFile(h, cfg), FileContains(h, cfg, "blscfg")];
    assert Passes(grub) <==> grub[0] && grub[1];
    var bls := CheckBlsEntries(h, root, g);
    var mountable := CheckRootMountable(h, root);
    var system := CheckFstabMounts(h, root);
    s := EvaluateChecks([grub, bls, mountable, system]);
    FourGroups(grub, bls, mountable, system);
  }

  /**
   The verdict on the live system means exactly the declarative chain: it fails just when the chain
   does not hold, and warns just when the chain holds but an entry is broken or nothing is required.
   */
  method VerifyBootable(h: Host, root: string) returns (s: BootStatus)
    ensures s.Inaccessible? <==> ReadOf(h, EspCfg(root)).Denied?
    ensures s.Pass? || s.Warn? <==> FromSystem(h, root).Ok? && BootChain(h, root, FromSystem(h, root).value)
    ensures s.Warn? <==>
      FromSystem(h, root).Ok? && BootChain(h, root, FromSystem(h, root).value)
      && Doubtful(h, root, FromSystem(h, root).value)
  {
    var context := FromSystem(h, root);
    match context {
      case Err(PermissionDenied) => return Inaccessible;
      case Err(OtherError) => return Fail;
      case Ok(g) => s := CheckSystem(h, root, g);
    }
  }

  /** The verdict on a snapshot: the same, without the ESP files and the default subvolume. */
  method VerifySnapshotBootable(h: Host, root: string) returns (s: BootStatus)
    ensures s.Inaccessible? <==> ReadOf(h, EspCfg("/")).Denied?
    ensures s.Pass? || s.Warn? <==> ForSnapshot(h, root).Ok? && CommonChain(h, root, ForSnapshot(h, root).value)
    ensures s.Warn? <==>
      ForSnapshot(h, root).Ok? && CommonChain(h, root, ForSnapshot(h, root).value)
      && Doubtful(h, root, ForSnapshot(h, root).value)
  {
    var context := ForSnapshot(h, root);
    match context {
      case Err(PermissionDenied) => return Inaccessible;
      case Err(OtherError) => return Fail;
      case Ok(g) => s := CheckSnapshot(h, root, g);
    }
  }
}
