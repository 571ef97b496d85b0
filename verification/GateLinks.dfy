/** What the gate makes of the texts the tool itself writes. */
module GateLinks {
  import opened Wrappers
  import opened Text
  import opened Scanners
  import opened Fstab
  import opened FstabRewrite
  import opened EspStub
  import opened Bls
  import opened BlsRepair
  import opened Gate

  // --- the repaired boot entry ---

  lemma TunedIsVariable(q: string)
    requires q != "" && SpaceFree(q)
    ensures SplitWs(q + " " + "$tuned_initrd") == [q, "$tuned_initrd"]
  {
    assert "$tuned_initrd" != "" && SpaceFree("$tuned_initrd");
    WordThen(q, "$tuned_initrd");
    SplitWsWord("$tuned_initrd");
    assert [q] + ["$tuned_initrd"] == [q, "$tuned_initrd"];
  }

  /** The only file in a new initrd value is the new path. */
  lemma NewInitrdFound(h: Host, g: GrubContext, v: string, kver: string)
    requires PlainVersion(kver)
    ensures InitrdFound(h, g, NewValueOf("initrd", v, kver)) <==> GrubFinds(h, g, InitrdPath(kver))
  {
    var q := InitrdPath(kver);
    PathsAreValues(kver);
    assert q[0] == '/';
    SplitWsWord(q);
    TunedIsVariable(q);
    assert q in [q] && q in [q, "$tuned_initrd"];
    assert "$" <= "$tuned_initrd" && !("$" <= q);
  }

  lemma NewInitrdsFound(h: Host, g: GrubContext, vs: seq<string>, kver: string)
    requires PlainVersion(kver) && vs != []
    ensures (forall v :: v in NewValues(vs, "initrd", kver) ==> InitrdFound(h, g, v))
      <==> GrubFinds(h, g, InitrdPath(kver))
  {
    var ws := NewValues(vs, "initrd", kver);
    NewValuesAt(vs, "initrd", kver);
    forall i | 0 <= i < |ws|
      ensures InitrdFound(h, g, ws[i]) <==> GrubFinds(h, g, InitrdPath(kver))
    {
      NewInitrdFound(h, g, vs[i], kver);
    }
    assert ws[0] in ws;
  }

  /** The values of a key that are not empty; what a repair keeps. */
  function Kept(content: string, key: string): seq<string> {
    DropEmpty(FieldValues(content, key))
  }

  /**
   The hook's repair and the gate fit: the repaired entry is valid exactly when the two files of
   this kernel exist, and the old entry gave all three fields a value and a root parameter.
   */
  lemma RepairedEntryBoots(h: Host, g: GrubContext, content: string, kver: string)
    requires CleanText(content) && PlainVersion(kver)
    ensures var options := Kept(content, "options");
      TextBoots(h, g, Repair(content, kver)) <==>
        && Kept(content, "linux") != [] && Kept(content, "initrd") != []
        && options != [] && Contains(options[0], "root=")
        && GrubFinds(h, g, LinuxPath(kver)) && GrubFinds(h, g, InitrdPath(kver))
  {
    LinuxRepaired(content, kver);
    InitrdRepaired(content, kver);
    OptionsRepaired(content, kver);
    NewValuesBoot(h, g, Kept(content, "linux"), Kept(content, "options"), Kept(content, "initrd"), kver);
  }

  lemma NewValuesBoot(
    h: Host, g: GrubContext, linux: seq<string>, options: seq<string>, initrd: seq<string>, kver: string)
    requires PlainVersion(kver)
    ensures ValuesBoot(h, g, NewValues(linux, "linux", kver), options, NewValues(initrd, "initrd", kver)) <==>
      && linux != [] && initrd != [] && options != [] && Contains(options[0], "root=")
      && GrubFinds(h, g, LinuxPath(kver)) && GrubFinds(h, g, InitrdPath(kver))
  {
    NewValuesAt(linux, "linux", kver);
    NewValuesAt(initrd, "initrd", kver);
    if initrd != [] {
      NewInitrdsFound(h, g, initrd, kver);
    }
  }

  lemma LinuxRepaired(content: string, kver: string)
    requires CleanText(content) && PlainVersion(kver)
    ensures FieldValues(Repair(content, kver), "linux") == NewValues(Kept(content, "linux"), "linux", kver)
  {
    RepairIsLens(content, kver, "linux");
  }

  lemma InitrdRepaired(content: string, kver: string)
    requires CleanText(content) && PlainVersion(kver)
    ensures FieldValues(Repair(content, kver), "initrd") == NewValues(Kept(content, "initrd"), "initrd", kver)
  {
    RepairIsLens(content, kver, "initrd");
  }

  lemma OptionsRepaired(content: string, kver: string)
    requires CleanText(content) && PlainVersion(kver)
    ensures FieldValues(Repair(content, kver), "options") == Kept(content, "options")
  {
    OtherKeysUnchanged(content, kver, "options");
  }

  // --- the new ESP stub ---

  lemma ConfigLineLoads()
    ensures Contains(CONFIG_LINE, "configfile")
  {
    assert CONFIG_LINE == "" + "configfile" + " $prefix/grub.cfg";
    HoldsMiddle("", "configfile", " $prefix/grub.cfg");
  }

  lemma {:induction false} LineInJoin(lines: seq<string>, i: nat, sub: string)
    requires i < |lines| && Contains(lines[i], sub)
    ensures Contains(Join(lines, '\n') + "\n", sub)
  {
    if |lines| == 1 {
      Around("", lines[0], "\n", sub);
      assert "" + lines[0] + "\n" == lines[0] + "\n";
    } else {
      var rest := Join(lines[1..], '\n') + "\n";
      JoinCons(lines[0], lines[1..], '\n');
      assert Join(lines, '\n') + "\n" == lines[0] + "\n" + rest by {
        assert lines == [lines[0]] + lines[1..];
      }
      if i == 0 {
        Around("", lines[0], "\n" + rest, sub);
        assert "" + lines[0] + ("\n" + rest) == lines[0] + "\n" + rest;
      } else {
        LineInJoin(lines[1..], i - 1, sub);
        Around(lines[0] + "\n", rest, "", sub);
        assert lines[0] + "\n" + rest + "" == lines[0] + "\n" + rest;
      }
    }
  }

  lemma Around(a: string, s: string, b: string, sub: string)
    requires Contains(s, sub)
    ensures Contains(a + s + b, sub)
  {
    var i := Find(s, sub).value;
    assert i + |sub| <= |s| && s[i..i + |sub|] == sub;
    var t := a + s + b;
    assert t[|a| + i..|a| + i + |sub|] == s[i..i + |sub|];
    assert Matches(t, sub, |a| + i);
  }

  /**
   After step 9, as far as the text of the ESP configuration goes, the gate is satisfied with it,
   resolves paths on the new file system and, when that is btrfs, demands that the default
   subvolume is the root one.
   */
  lemma NewEspAtTheGate(h: Host, root: string, uuid: string)
    requires PlainUuid(uuid) && Uuid(uuid) in h.mounts
    requires ReadOf(h, EspCfg(root)) == Content(Render(Stub(uuid, NEW_GRUB_DIR, true)))
    ensures FileContains(h, EspCfg(root), "--fs-uuid") && FileContains(h, EspCfg(root), "configfile")
    ensures FromSystem(h, root) == Ok(GrubContext(BlkidFstype(h, uuid), true, h.mounts[Uuid(uuid)]))
    ensures UsesDefault(FromSystem(h, root).value) <==> uuid in h.fstypes && h.fstypes[uuid] == Btrfs
  {
    var stub := Stub(uuid, NEW_GRUB_DIR, true);
    RoundTripExact(stub);
    SearchLineParts(uuid);
    ConfigLineLoads();
    assert RenderLines(stub)[1] == SearchLine(uuid) && RenderLines(stub)[4] == CONFIG_LINE;
    LineInJoin(RenderLines(stub), 1, UUID_FLAG);
    LineInJoin(RenderLines(stub), 4, "configfile");
  }

  // --- the rewritten fstabs ---

  lemma AllOfSnoc<T(!new)>(f: T -> bool, s: seq<T>, x: T)
    ensures AllOf(f, s + [x]) <==> AllOf(f, s) && f(x)
  {
    assert x in s + [x];
    assert forall y :: y in s + [x] <==> y in s || y == x;
  }

  /** The new entry passes exactly if it may fail, or its device resolves and has the subvolume. */
  lemma VarEntryMounts(h: Host, spec: DeviceSpec, options: string)
    requires MountOption(options, "subvol") == Some("var")
    ensures MountsIfRequired(h)(VarEntry(spec, options))
       <==> Contains(options, "nofail") || (Resolvable(h, spec) && SubvolExists(h, spec, "var"))
  {
    assert "/var" != "none" && "/var" != "swap";
  }

  /** After step 10 the gate asks of the fstab what it asked before, and that /var mounts. */
  lemma SeparatedFstabAtTheGate(h: Host, fstab: string, e: FstabEntry, root: string)
    requires RootEntry(fstab) == Some(e) && MountOption(e.mntops, "subvol") == Some(root) && Rewritable(e.spec)
    ensures WithVar(fstab).Some?
    ensures AllOf(MountsIfRequired(h), Entries(WithVar(fstab).value)) <==>
      && AllOf(MountsIfRequired(h), Entries(fstab))
      && (Contains(VarOptions(e.mntops, root), "nofail")
          || (Resolvable(h, e.spec) && SubvolExists(h, e.spec, "var")))
  {
    var options := VarOptions(e.mntops, root);
    VarSeparationExact(fstab, e, root);
    VarOptionsNameVar(e.mntops, root);
    AllOfSnoc(MountsIfRequired(h), Entries(fstab), VarEntry(e.spec, options));
    VarEntryMounts(h, e.spec, options);
  }

  /** After step 5 the gate asks of the fstab what it asked before, but for the ext4 /boot entries. */
  lemma CleanedFstabAtTheGate(h: Host, fstab: string)
    ensures AllOf(MountsIfRequired(h), Entries(WithoutExt4Boot(fstab)))
       <==> forall e :: e in Entries(fstab) && !IsExt4Boot(e) && Required(e) ==> Mounts(h, e)
  {
    BootRemoval(fstab);
    DropIsExact(Entries(fstab));
    var f, kept := MountsIfRequired(h), Entries(WithoutExt4Boot(fstab));
    assert forall e :: e in kept <==> e in Entries(fstab) && !IsExt4Boot(e);
    assert forall e :: f(e) == (Required(e) ==> Mounts(h, e));
  }
}
