/** The two fstab rewrites of the migration: removing the ext4 /boot mount, adding a /var mount. */
module FstabRewrite {
  import opened Wrappers
  import opened Text
  import opened Numbers
  import opened Scanners
  import opened Fstab

  // --- step 5: the ext4 /boot entry is commented out ---

  predicate IsExt4Boot(e: FstabEntry) {
    e.file == "/boot" && e.vfstype == FsType.Ext4
  }

  const MARK := "#MIGRATED:"

  function BootLine(line: FstabLine): string {
    match line
    case Entry(e, raw) => if IsExt4Boot(e) then MARK + " " + raw else raw
    case _ => line.raw
  }

  function BootLines(lines: seq<FstabLine>): seq<string> {
    if lines == [] then [] else [BootLine(lines[0])] + BootLines(lines[1..])
  }

  function WithoutExt4Boot(content: string): string {
    Join(BootLines(ParseFstab(content)), '\n')
  }

  function DropExt4Boot(entries: seq<FstabEntry>): seq<FstabEntry> {
    if entries == [] then []
    else (if IsExt4Boot(entries[0]) then [] else [entries[0]]) + DropExt4Boot(entries[1..])
  }

  lemma CommentHasNoEntry(line: string)
    ensures EntryOf(MARK + " " + line) == None
  {
  }

  lemma RewrittenLine(line: string)
    requires OneLine(line)
    ensures OneLine(BootLine(ParseLine(line)))
    ensures Optional(EntryOf(BootLine(ParseLine(line)))) == DropExt4Boot(Optional(EntryOf(line)))
  {
    LineEntry(line);
    CommentHasNoEntry(line);
    assert ParseLine(line).raw == line;
    var o := Optional(EntryOf(line));
    assert o != [] ==> o[1..] == [];
  }

  lemma {:induction false} DropConcat(a: seq<FstabEntry>, b: seq<FstabEntry>)
    ensures DropExt4Boot(a + b) == DropExt4Boot(a) + DropExt4Boot(b)
  {
    if a == [] {
      assert a + b == b;
    } else {
      assert (a + b)[1..] == a[1..] + b;
      DropConcat(a[1..], b);
    }
  }

  lemma {:induction false} RewrittenLines(lines: seq<string>)
    requires forall l :: l in lines ==> OneLine(l)
    ensures forall l :: l in BootLines(ParseLines(lines)) ==> OneLine(l)
    ensures FilterMap(EntryOf, BootLines(ParseLines(lines))) == DropExt4Boot(FilterMap(EntryOf, lines))
  {
    if lines != [] {
      var rest := lines[1..];
      RewrittenLine(lines[0]);
      RewrittenLines(rest);
      assert ParseLines(lines)[1..] == ParseLines(rest);
      FilterMapCons(EntryOf, BootLine(ParseLine(lines[0])), BootLines(ParseLines(rest)));
      DropConcat(Optional(EntryOf(lines[0])), FilterMap(EntryOf, rest));
    }
  }

  /** For any fstab text, exactly the ext4 /boot entries go; the rest stay in order, field by field. */
  lemma BootRemoval(content: string)
    ensures Entries(WithoutExt4Boot(content)) == DropExt4Boot(Entries(content))
  {
    var lines := Lines(content);
    LinesOneLine(content);
    RewrittenLines(lines);
    EntriesAreFilterMap(content);
    EntryOfIsLineFunction();
    ReadJoin(EntryOf, BootLines(ParseFstab(content)));
    EntriesAreFilterMap(WithoutExt4Boot(content));
  }

  lemma {:induction false} DropIsExact(entries: seq<FstabEntry>)
    ensures forall e :: e in DropExt4Boot(entries) <==> e in entries && !IsExt4Boot(e)
    ensures DropExt4Boot(DropExt4Boot(entries)) == DropExt4Boot(entries)
    ensures (forall e :: e in entries ==> !IsExt4Boot(e)) ==> DropExt4Boot(entries) == entries
  {
    if entries != [] {
      DropIsExact(entries[1..]);
      DropConcat(if IsExt4Boot(entries[0]) then [] else [entries[0]], DropExt4Boot(entries[1..]));
      assert [entries[0]][1..] == [];
    }
  }

  /** A second application removes nothing more, and no ext4 /boot entry is left. */
  lemma BootRemovalIsIdempotent(content: string)
    ensures Entries(WithoutExt4Boot(WithoutExt4Boot(content))) == Entries(WithoutExt4Boot(content))
    ensures forall e :: e in Entries(WithoutExt4Boot(content)) ==> !IsExt4Boot(e)
  {
    BootRemoval(content);
    BootRemoval(WithoutExt4Boot(content));
    DropIsExact(Entries(content));
  }

  // --- step 10: the /var entry ---

  function VarOptions(options: string, root: string): string {
    Replace(options, "subvol=" + root, "subvol=var")
  }

  function VarTail(options: string): string {
    " " + ("/var" + " " + ("btrfs" + " " + (options + " " + "0 0")))
  }

  /** The fstab with the /var line, derived from the first "/" entry; None when there is none. */
  function WithVar(fstab: string): Option<string> {
    match RootEntry(fstab)
    case None => None
    case Some(e) =>
      match MountOption(e.mntops, "subvol")
      case None => None
      case Some(root) => Some(fstab + "\n" + (Display(e.spec) + VarTail(VarOptions(e.mntops, root))) + "\n")
  }

  // --- step 10: mount options ---

  function ReplaceAll(fields: seq<string>, pat: string, to: string): seq<string>
    requires pat != ""
  {
    if fields == [] then [] else [Replace(fields[0], pat, to)] + ReplaceAll(fields[1..], pat, to)
  }

  lemma {:induction false} ReplaceAllAt(fields: seq<string>, pat: string, to: string)
    requires pat != ""
    ensures |ReplaceAll(fields, pat, to)| == |fields|
    ensures forall i :: 0 <= i < |fields| ==> ReplaceAll(fields, pat, to)[i] == Replace(fields[i], pat, to)
  {
    if fields != [] {
      ReplaceAllAt(fields[1..], pat, to);
    }
  }

  /** Replacing a comma-free pattern by a comma-free text works field by field. */
  lemma {:induction false} SplitReplace(options: string, pat: string, to: string)
    requires pat != "" && ',' !in pat && ',' !in to
    ensures Split(Replace(options, pat, to), ',') == ReplaceAll(Split(options, ','), pat, to)
  {
    var n := IndexOf(options, ',');
    var head := options[..n];
    ReplaceChars(head, pat, to);
    if n == |options| {
      assert head == options;
      SplitOne(Replace(options, pat, to), ',');
    } else {
      var rest := options[n + 1..];
      assert options == head + [','] + rest;
      ReplaceAcross(head, ',', rest, pat, to);
      SplitHead(Replace(head, pat, to), ',', Replace(rest, pat, to));
      SplitReplace(rest, pat, to);
      assert ([head] + Split(rest, ','))[1..] == Split(rest, ',');
    }
  }

  /** Fields that do not hold the pattern keep their text and their place. */
  lemma OtherOptionsUnchanged(options: string, root: string, i: nat)
    requires ',' !in root && i < |Split(options, ',')|
    requires !Contains(Split(options, ',')[i], "subvol=" + root)
    ensures |Split(VarOptions(options, root), ',')| == |Split(options, ',')|
    ensures Split(VarOptions(options, root), ',')[i] == Split(options, ',')[i]
  {
    SplitReplace(options, "subvol=" + root, "subvol=var");
    ReplaceAllAt(Split(options, ','), "subvol=" + root, "subvol=var");
    ReplaceAbsent(Split(options, ',')[i], "subvol=" + root, "subvol=var");
  }

  /** A replacement never makes a field start with "subvol=" that did not. */
  lemma NoNewSubvol(field: string, root: string)
    requires !("subvol=" <= field)
    ensures !("subvol=" <= Replace(field, "subvol=" + root, "subvol=var"))
  {
    NoNewPrefix(field, root, 0);
  }

  /** The first 7 - k characters of the replaced field do not spell the rest of "subvol=". */
  lemma {:induction false} NoNewPrefix(field: string, root: string, k: nat)
    requires k < 7 && !("subvol="[k..] <= field)
    ensures !("subvol="[k..] <= Replace(field, "subvol=" + root, "subvol=var"))
    decreases 7 - k
  {
    var key, pat := "subvol=", "subvol=" + root;
    var out := Replace(field, pat, "subvol=var");
    if field == "" {
      assert out == "";
    } else if pat <= field {
      // then k > 0, and out starts with 's', which occurs in "subvol=" only at 0
      assert out[0] == 's';
      assert key[0..] == pat[..7] == field[..7];
      assert key[k..][0] == key[k];
    } else if field[0] == key[k] {
      assert key[k..] == [key[k]] + key[k + 1..];
      assert field == [field[0]] + field[1..];
      assert k < 6;
      NoNewPrefix(field[1..], root, k + 1);
      assert out[1..] == Replace(field[1..], pat, "subvol=var");
      assert key[k..][1..] == key[k + 1..];
    } else {
      assert out[0] == field[0];
      assert key[k..][0] == key[k];
    }
  }

  /** The first subvol option is the only one that decides, and it becomes subvol=var. */
  lemma {:induction false} FirstSubvolBecomesVar(fields: seq<string>, root: string)
    requires FirstWithPrefix(fields, "subvol=") == Some(root)
    ensures FirstWithPrefix(ReplaceAll(fields, "subvol=" + root, "subvol=var"), "subvol=") == Some("var")
  {
    var f, pat := fields[0], "subvol=" + root;
    var g := Replace(f, pat, "subvol=var");
    if "subvol=" <= f {
      assert f == "subvol=" + f[7..] == pat;
      assert f[|pat|..] == "";
      assert g == "subvol=var" + Replace("", pat, "subvol=var") == "subvol=var";
      assert g[7..] == "var";
    } else {
      NoNewSubvol(f, root);
      FirstSubvolBecomesVar(fields[1..], root);
      assert ([g] + ReplaceAll(fields[1..], pat, "subvol=var"))[1..] == ReplaceAll(fields[1..], pat, "subvol=var");
    }
  }

  /** Whatever else the options hold, the /var options name the subvolume var. */
  lemma VarOptionsNameVar(options: string, root: string)
    requires MountOption(options, "subvol") == Some(root)
    ensures MountOption(VarOptions(options, root), "subvol") == Some("var")
  {
    assert "subvol" + "=" == "subvol=";
    OptionHasNoComma(options, root);
    SplitReplace(options, "subvol=" + root, "subvol=var");
    FirstSubvolBecomesVar(Split(options, ','), root);
  }

  lemma OptionHasNoComma(options: string, root: string)
    requires MountOption(options, "subvol") == Some(root)
    ensures ',' !in root
  {
    var fields := Split(options, ',');
    JoinSplit(options, ',');
    FirstWithPrefixExact(fields, "subvol" + "=", root);
    var i: nat :| FirstAt(fields, "subvol" + "=", i, root);
    assert fields[i] in fields;
    assert forall c :: c in root ==> c in fields[i];
  }

  // --- step 10: the whole fstab ---

  /** The entry the migration means to add. */
  function VarEntry(spec: DeviceSpec, options: string): FstabEntry {
    FstabEntry(spec, "/var", FsType.Btrfs, options, 0, 0)
  }

  /** The decoded device can be written back as one plain field. */
  ghost predicate Rewritable(spec: DeviceSpec) {
    SpaceFree(Display(spec)) && Decode(Display(spec)) == Display(spec)
  }

  lemma {:induction false} FromSomeLine<T>(f: string -> Option<T>, lines: seq<string>, v: T) returns (line: string)
    requires v in FilterMap(f, lines)
    ensures line in lines && f(line) == Some(v)
  {
    if f(lines[0]) == Some(v) {
      line := lines[0];
    } else {
      line := FromSomeLine(f, lines[1..], v);
    }
  }

  /** What an entry's device and options look like, whatever line they came from. */
  lemma EntryFields(line: string, e: FstabEntry)
    requires EntryOf(line) == Some(e)
    ensures Display(e.spec) == Decode(SplitWs(line)[0])
    ensures Display(e.spec) != "" && Display(e.spec)[0] != '#'
    ensures e.mntops != "" && SpaceFree(e.mntops)
  {
    var fields := SplitWs(line);
    SplitWsWords(line);
    assert fields[0] in fields && fields[3] in fields;
    DisplayParse(Decode(fields[0]));
    DecodeShrinks(fields[0]);
  }

  /** A device field without a backslash can be written back. */
  lemma PlainDeviceIsRewritable(line: string, e: FstabEntry)
    requires EntryOf(line) == Some(e) && '\\' !in SplitWs(line)[0]
    ensures Rewritable(e.spec)
  {
    EntryFields(line, e);
    SplitWsWords(line);
    assert SplitWs(line)[0] in SplitWs(line);
    DecodePlain(SplitWs(line)[0]);
  }

  lemma RootEntryFields(fstab: string, e: FstabEntry)
    requires RootEntry(fstab) == Some(e)
    ensures Display(e.spec) != "" && Display(e.spec)[0] != '#'
    ensures e.mntops != "" && SpaceFree(e.mntops)
  {
    EntriesAreFilterMap(fstab);
    FoundHasFile(Entries(fstab), "/");
    var line := FromSomeLine(EntryOf, Lines(fstab), e);
    EntryFields(line, e);
  }

  lemma VarOptionsAreOneWord(options: string, root: string)
    requires options != "" && SpaceFree(options)
    ensures VarOptions(options, root) != "" && SpaceFree(VarOptions(options, root))
  {
    var out := VarOptions(options, root);
    ReplaceChars(options, "subvol=" + root, "subvol=var");
    forall i | 0 <= i < |out|
      ensures !IsSpace(out[i])
    {
      assert out[i] in out;
    }
  }

  /** The last three fields that both tails share: options, 0 and 0. */
  lemma OptionsTail(options: string)
    requires options != "" && SpaceFree(options)
    ensures SplitWs(options + " " + "0 0") == [options, "0", "0"]
  {
    WordThen(options, "0 0");
    assert "0 0" == "0" + " " + "0";
    WordThen("0", "0");
    SplitWsWord("0");
  }

  lemma BtrfsTail(options: string)
    requires options != "" && SpaceFree(options)
    ensures SplitWs("btrfs" + " " + (options + " " + "0 0")) == ["btrfs", options, "0", "0"]
  {
    OptionsTail(options);
    WordThen("btrfs", options + " " + "0 0");
  }

  /** The words of the tail of the /var line. */
  lemma TailWords(t: string, options: string)
    requires options != "" && SpaceFree(options)
    ensures SplitWs(t + VarTail(options)) == SplitWs(t) + ["/var", "btrfs", options, "0", "0"]
  {
    var w := "btrfs" + " " + (options + " " + "0 0");
    BtrfsTail(options);
    WordThen("/var", w);
    WordsConcat(t, ' ', "/var" + " " + w, Space);
    ConcatAssoc(t, [' '], "/var" + " " + w);
  }

  lemma TailIsOneLine(options: string)
    requires SpaceFree(options)
    ensures OneLine(VarTail(options))
  {
  }

  /** With a device that can be written back, the /var line parses to the meant entry. */
  lemma VarLineParses(spec: DeviceSpec, options: string)
    requires Rewritable(spec) && Display(spec) != "" && Display(spec)[0] != '#' && ParseSpec(Display(spec)) == spec
    requires options != "" && SpaceFree(options)
    ensures EntryOf(Display(spec) + VarTail(options)) == Some(VarEntry(spec, options))
  {
    var d := Display(spec);
    TailWords(d, options);
    SplitWsWord(d);
    var fields := [d, "/var", "btrfs", options, "0", "0"];
    assert SplitWs(d + VarTail(options)) == fields;
    DecodePlain("/var");
    assert ParseI32("0") == Some(0) by {
      assert FromDec("0") == Some(0);
    }
    assert EntryOfFields(fields) == VarEntry(spec, options);
  }

  /** A word whose decoding is d is at least as long as d. */
  lemma WordIsLong(t: string, d: string)
    requires SplitWs(t) != [] && ParseSpec(Decode(SplitWs(t)[0])) == ParseSpec(d)
    ensures Decode(SplitWs(t)[0]) == d
    ensures |d| <= |SplitWs(t)[0]| <= |t|
    ensures |t| <= |d| ==> SplitWs(t)[0] == t && SpaceFree(t)
  {
    var x := SplitWs(t)[0];
    DisplayParse(Decode(x));
    DisplayParse(d);
    DecodeShrinks(x);
    SplitWsWords(t);
    assert x in SplitWs(t);
  }

  /**
   Reading t followed by the tail, where t is an end of the device text d: if the meant entry
   shows up, then t is all of d and d can be written back.
   */
  lemma {:induction false} OnlyRewritableParses(t: string, d: string, options: string)
    requires |t| <= |d| && t == d[|d| - |t|..]
    requires options != "" && SpaceFree(options)
    requires VarEntry(ParseSpec(d), options) in FilterMap(EntryOf, Lines(t + VarTail(options)))
    ensures t == d && SpaceFree(d) && Decode(d) == d
    decreases |t|
  {
    var n := IndexOf(t, '\n');
    if n == |t| {
      LastLineParses(t, d, options);
    } else {
      var head, rest := t[..n], t[n + 1..];
      FirstLineOff(t, n, VarTail(options));
      if EntryOf(head) == Some(VarEntry(ParseSpec(d), options)) {
        WordIsLong(head, d);
      } else {
        assert rest == d[|d| - |rest|..];
        OnlyRewritableParses(rest, d, options);
      }
    }
  }

  lemma FirstLineOff(t: string, n: nat, tail: string)
    requires n < |t| && t[n] == '\n' && OneLine(t[..n])
    ensures FilterMap(EntryOf, Lines(t + tail))
         == Optional(EntryOf(t[..n])) + FilterMap(EntryOf, Lines(t[n + 1..] + tail))
  {
    assert t + tail == t[..n] + "\n" + (t[n + 1..] + tail);
    EntryOfIsLineFunction();
    ReadHead(EntryOf, t[..n], t[n + 1..] + tail);
  }

  lemma LastLineParses(t: string, d: string, options: string)
    requires OneLine(t) && |t| <= |d| && t == d[|d| - |t|..]
    requires options != "" && SpaceFree(options)
    requires VarEntry(ParseSpec(d), options) in FilterMap(EntryOf, Lines(t + VarTail(options)))
    ensures t == d && SpaceFree(d) && Decode(d) == d
  {
    TailIsOneLine(options);
    EntryOfIsLineFunction();
    ReadHead(EntryOf, t + VarTail(options), "");
    assert EntryOf(t + VarTail(options)) == Some(VarEntry(ParseSpec(d), options));
    TailWords(t, options);
    DecodePlain("btrfs");
    if SplitWs(t) != [] {
      WordIsLong(t, d);
    }
  }

  lemma NewEntries(fstab: string, line: string)
    ensures Entries(fstab + "\n" + line + "\n") == Entries(fstab) + FilterMap(EntryOf, Lines(line))
  {
    EntryOfIsLineFunction();
    assert fstab + "\n" + line + "\n" == fstab + "\n" + (line + "\n" + "");
    EntriesAreFilterMap(fstab);
    EntriesAreFilterMap(fstab + "\n" + (line + "\n" + ""));
    ReadConcat(EntryOf, fstab, line + "\n" + "");
    ReadConcat(EntryOf, line, "");
    assert FilterMap(EntryOf, Lines("")) == [];
  }

  /**
   The /var separation, for every fstab whose first "/" entry names a subvolume: the new fstab has
   exactly the old entries plus a btrfs /var entry on the same device, with the root's options
   renamed, if and only if the decoded device text can be written back as one field.
   */
  lemma VarSeparationExact(fstab: string, e: FstabEntry, root: string)
    requires RootEntry(fstab) == Some(e) && MountOption(e.mntops, "subvol") == Some(root)
    ensures WithVar(fstab).Some?
    ensures Entries(WithVar(fstab).value) == Entries(fstab) + [VarEntry(e.spec, VarOptions(e.mntops, root))]
       <==> Rewritable(e.spec)
  {
    var d, options := Display(e.spec), VarOptions(e.mntops, root);
    var line := d + VarTail(options);
    var want := VarEntry(e.spec, options);
    RootEntryFields(fstab, e);
    VarOptionsAreOneWord(e.mntops, root);
    RootSpecParses(fstab, e);
    NewEntries(fstab, line);
    if Rewritable(e.spec) {
      VarLineParses(e.spec, options);
      TailIsOneLine(options);
      assert OneLine(line);
      EntryOfIsLineFunction();
      ReadHead(EntryOf, line, "");
    }
    if Entries(WithVar(fstab).value) == Entries(fstab) + [want] {
      assert FilterMap(EntryOf, Lines(line)) == (Entries(fstab) + [want])[|Entries(fstab)|..] == [want];
      OnlyRewritableParses(d, d, options);
    }
  }

  lemma {:induction false} NamesOfAll(a: seq<FstabEntry>, e: FstabEntry)
    ensures SubvolNames(a + [e]) == SubvolNames(a) + Optional(MountOption(e.mntops, "subvol"))
    ensures FindFile(a, "/").Some? ==> FindFile(a + [e], "/") == FindFile(a, "/")
  {
    if a == [] {
      assert [e][1..] == [];
      assert [] + [e] == [e];
    } else {
      assert (a + [e])[1..] == a[1..] + [e];
      NamesOfAll(a[1..], e);
    }
  }

  /** After the separation the new /var subvolume is a system subvolume, and root is what it was. */
  lemma VarBecomesProtected(fstab: string, e: FstabEntry, root: string)
    requires RootEntry(fstab) == Some(e) && MountOption(e.mntops, "subvol") == Some(root) && Rewritable(e.spec)
    ensures WithVar(fstab).Some?
    ensures FstabSubvolNames(WithVar(fstab).value) == FstabSubvolNames(fstab) + ["var"]
    ensures RootSubvolName(WithVar(fstab).value) == Some(root)
  {
    VarSeparationExact(fstab, e, root);
    VarOptionsNameVar(e.mntops, root);
    NamesOfAll(Entries(fstab), VarEntry(e.spec, VarOptions(e.mntops, root)));
  }

  lemma RootSpecParses(fstab: string, e: FstabEntry)
    requires RootEntry(fstab) == Some(e)
    ensures ParseSpec(Display(e.spec)) == e.spec
  {
    EntriesAreFilterMap(fstab);
    FoundHasFile(Entries(fstab), "/");
    var line := FromSomeLine(EntryOf, Lines(fstab), e);
    DisplayParse(Decode(SplitWs(line)[0]));
  }

  lemma {:induction false} EncodeIsOneWord(s: string)
    requires forall i :: 0 <= i < |s| && IsSpace(s[i]) ==> s[i] == ' ' || s[i] == '\t' || s[i] == '\n'
    ensures SpaceFree(Encode(s)) && (s != "" ==> Encode(s) != "")
    ensures s != "" && s[0] != '#' ==> Encode(s)[0] != '#'
  {
    if s != "" {
      EncodeIsOneWord(s[1..]);
    }
  }

  /** The one-line fstab of a root device d, escaped as fstab(5) asks. */
  function RootLine(d: string): string {
    Encode(d) + " " + ("/" + " " + ("btrfs" + " " + ("subvol=root" + " " + "0 0")))
  }

  function RootFields(d: string): seq<string> {
    [Encode(d), "/", "btrfs", "subvol=root", "0", "0"]
  }

  lemma RootWords(d: string)
    requires Encode(d) != "" && SpaceFree(Encode(d))
    ensures SplitWs(RootLine(d)) == RootFields(d)
  {
    var b := "btrfs" + " " + ("subvol=root" + " " + "0 0");
    BtrfsTail("subvol=root");
    WordThen("/", b);
    WordThen(Encode(d), "/" + " " + b);
  }

  lemma RootFieldsParse(d: string)
    ensures EntryOfFields(RootFields(d)) == FstabEntry(ParseSpec(d), "/", FsType.Btrfs, "subvol=root", 0, 0)
  {
    DecodeEncode(d);
    DecodePlain("/");
    assert ParseI32("0") == Some(0) by {
      assert FromDec("0") == Some(0);
    }
  }

  lemma RootLineParses(d: string)
    requires d != "" && d[0] != '#'
    requires forall i :: 0 <= i < |d| && IsSpace(d[i]) ==> d[i] == ' ' || d[i] == '\t' || d[i] == '\n'
    ensures RootEntry(RootLine(d)) == Some(FstabEntry(ParseSpec(d), "/", FsType.Btrfs, "subvol=root", 0, 0))
  {
    var e := FstabEntry(ParseSpec(d), "/", FsType.Btrfs, "subvol=root", 0, 0);
    EncodeIsOneWord(d);
    RootWords(d);
    RootFieldsParse(d);
    assert EntryOf(RootLine(d)) == Some(e);
    RootLineIsOneLine(d);
    EntryOfIsLineFunction();
    ReadHead(EntryOf, RootLine(d), "");
    EntriesAreFilterMap(RootLine(d));
    assert Entries(RootLine(d)) == [e];
  }

  lemma RootLineIsOneLine(d: string)
    requires SpaceFree(Encode(d))
    ensures OneLine(RootLine(d))
  {
  }

  lemma SubvolRootNamesRoot()
    ensures MountOption("subvol=root", "subvol") == Some("root")
  {
  }

  /** A root device with a space in it, correctly escaped, is enough to lose the /var mount. */
  lemma EscapedDeviceFails(d: string)
    requires d != "" && d[0] != '#' && ' ' in d
    requires forall i :: 0 <= i < |d| && IsSpace(d[i]) ==> d[i] == ' ' || d[i] == '\t' || d[i] == '\n'
    ensures WithVar(RootLine(d)).Some?
    ensures Entries(WithVar(RootLine(d)).value)
         != Entries(RootLine(d)) + [VarEntry(ParseSpec(d), VarOptions("subvol=root", "root"))]
  {
    RootLineParses(d);
    SubvolRootNamesRoot();
    VarSeparationExact(RootLine(d), RootEntry(RootLine(d)).value, "root");
    DisplayParse(d);
    var i :| 0 <= i < |d| && d[i] == ' ';
    assert IsSpace(d[i]);
  }

  /** For example the label "a b". */
  lemma LabelWithSpaceFails()
    ensures WithVar(RootLine("LABEL=a b")).Some?
    ensures Entries(WithVar(RootLine("LABEL=a b")).value)
         != Entries(RootLine("LABEL=a b")) + [VarEntry(ParseSpec("LABEL=a b"), VarOptions("subvol=root", "root"))]
  {
    assert "LABEL=a b"[7] == ' ';
    EscapedDeviceFails("LABEL=a b");
  }
}
