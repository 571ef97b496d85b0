/**
 The kernel hook's repair of a BLS entry: a read through the field scanner decides, a rewrite
 through the line grammar repairs. The two make a lens on the linux and initrd fields.
 */
module BlsRepair {
  import opened Wrappers
  import opened Text
  import opened Scanners
  import opened Bls

  // --- the decision ---

  predicate HasBadPath(v: string) {
    Contains(v, "/root/boot/") || Contains(v, "/boot/vmlinuz-") || Contains(v, "/boot/initramfs-")
  }

  predicate NeedsFix(content: string) {
    var linux, initrd := FieldValues(content, "linux"), FieldValues(content, "initrd");
    (linux != [] && HasBadPath(linux[0])) || exists i :: 0 <= i < |initrd| && HasBadPath(initrd[i])
  }

  // --- the rewrite ---

  function LinuxPath(kver: string): string {
    "/vmlinuz-" + kver
  }

  function InitrdPath(kver: string): string {
    "/initramfs-" + kver + ".img"
  }

  /** The value the rewrite puts in place of a value of key. */
  function NewValueOf(key: string, v: string, kver: string): string {
    if key == "linux" then LinuxPath(kver)
    else if key == "initrd" then
      if Contains(v, "$tuned_initrd") then InitrdPath(kver) + " " + "$tuned_initrd" else InitrdPath(kver)
    else v
  }

  function NewValue(f: BlsLine, kver: string): string
    requires f.Field?
  {
    NewValueOf(f.key, f.value, kver)
  }

  function RewriteLine(l: BlsLine, kver: string): string {
    if l.Field? then l.prefix + NewValue(l, kver) else Raw(l)
  }

  function RewriteLines(lines: seq<BlsLine>, kver: string): seq<string> {
    if lines == [] then [] else [RewriteLine(lines[0], kver)] + RewriteLines(lines[1..], kver)
  }

  /** The repaired text. */
  function Repair(content: string, kver: string): string {
    Join(RewriteLines(ParseBls(content), kver), '\n')
  }

  /** What the hook leaves in the entry file when nothing fails. */
  function Fixed(content: string, kver: string): string {
    if NeedsFix(content) then Repair(content, kver) else content
  }

  // --- well-formed fields ---

  /** A kernel version as uname prints it: one path component, one word. */
  ghost predicate PlainVersion(kver: string) {
    SpaceFree(kver) && '/' !in kver
  }

  /** The text of a value: ends in no whitespace, and has only spaces and tabs inside. */
  ghost predicate ValueText(v: string) {
    && v != "" && !IsSpace(v[0]) && !IsSpace(v[|v| - 1])
    && forall k :: 0 <= k < |v| && IsSpace(v[k]) ==> IsBlank(v[k])
  }

  /** A field as the parser makes it from a clean line that has a value. */
  ghost predicate ValuedField(f: BlsLine) {
    && f.Field? && PlainKey(f.key) && f.key[0] != '#' && ValueText(f.value)
    && |f.key| < |f.prefix| && f.prefix[..|f.key|] == f.key && AllIn(f.prefix, |f.key|, |f.prefix|, Blank)
  }

  /** A field without a value. */
  ghost predicate BareField(f: BlsLine) {
    f.Field? && PlainKey(f.key) && f.key[0] != '#' && f.value == "" && f.prefix == f.key
  }

  lemma ParsedTrimmed(t: string)
    requires t != "" && !IsSpace(t[0]) && t[0] != '#' && !IsSpace(t[|t| - 1])
    requires forall k :: 0 <= k < |t| && IsSpace(t[k]) ==> IsBlank(t[k])
    ensures var f := ParseTrimmed(t); ValuedField(f) || BareField(f)
    ensures ParseTrimmed(t).prefix + ParseTrimmed(t).value == t
  {
  }

  /** What the parser makes of a clean line. */
  lemma ParsedField(line: string)
    requires CleanLine(line)
    ensures var f := ParseBlsLine(line); f.Field? ==> ValuedField(f) || BareField(f)
    ensures ParseBlsLine(line).Field? ==> Raw(ParseBlsLine(line)) == Trim(line)
  {
    var i, j := TrimIsCore(line);
    var t := line[i..j];
    assert forall k :: 0 <= k < |t| ==> t[k] == line[i + k];
    if t != "" && t[0] != '#' {
      ParsedTrimmed(t);
    }
  }

  /** Put-get: prefix and value, written one after the other, parse back to the field. */
  lemma ReparseValued(f: BlsLine)
    requires ValuedField(f)
    ensures ParseBlsLine(f.prefix + f.value) == f
    ensures CleanLine(f.prefix + f.value)
  {
    var s := f.prefix + f.value;
    var n, v := |f.key|, |f.prefix|;
    assert s[0] == f.prefix[0] == f.key[0];
    assert s[|s| - 1] == f.value[|f.value| - 1];
    CoreIsTrim(s, 0, |s|);
    assert s[0..|s|] == s;
    assert forall k :: 0 <= k < n ==> s[k] == f.prefix[k] == f.key[k];
    assert forall k :: n <= k < v ==> s[k] == f.prefix[k];
    assert s[v] == f.value[0];
    WordEndIs(s, 0, Blank, n);
    SkipFromIs(s, n, Space, v);
    assert s[..n] == f.key && s[v..] == f.value && s[..v] == f.prefix;
  }

  lemma ReparseBare(key: string)
    requires PlainKey(key) && key[0] != '#'
    ensures ParseBlsLine(key) == Field(key, "", key) && CleanLine(key)
  {
  }

  // --- the rewrite, line by line ---

  /** What the rewrite makes of a field; one without a value grows a longer key instead. */
  function RewriteField(f: BlsLine, kver: string): BlsLine
    requires f.Field?
  {
    var v := NewValue(f, kver);
    if f.value == "" then Field(f.prefix + v, "", f.prefix + v) else Field(f.key, v, f.prefix)
  }

  function RewriteFields(fields: seq<BlsLine>, kver: string): seq<BlsLine> {
    if fields == [] then []
    else (if fields[0].Field? then [RewriteField(fields[0], kver)] else []) + RewriteFields(fields[1..], kver)
  }

  lemma PathsAreValues(kver: string)
    requires PlainVersion(kver)
    ensures ValueText(LinuxPath(kver)) && SpaceFree(LinuxPath(kver))
    ensures ValueText(InitrdPath(kver)) && SpaceFree(InitrdPath(kver))
    ensures ValueText(InitrdPath(kver) + " " + "$tuned_initrd")
  {
  }

  lemma RewrittenValued(f: BlsLine, kver: string)
    requires ValuedField(f) && PlainVersion(kver)
    ensures ParseBlsLine(RewriteLine(f, kver)) == RewriteField(f, kver)
    ensures CleanLine(RewriteLine(f, kver)) && RewriteField(f, kver).value != ""
  {
    PathsAreValues(kver);
    ReparseValued(RewriteField(f, kver));
  }

  lemma RewrittenBare(f: BlsLine, kver: string)
    requires BareField(f) && PlainVersion(kver)
    ensures ParseBlsLine(RewriteLine(f, kver)) == RewriteField(f, kver)
    ensures CleanLine(RewriteLine(f, kver))
  {
    PathsAreValues(kver);
    assert !Contains("", "$tuned_initrd");
    var s := f.prefix + NewValue(f, kver);
    assert s[0] == f.key[0];
    assert PlainKey(s);
    ReparseBare(s);
  }

  /** The rewritten line is clean again and parses to the rewritten field, or to no field as before. */
  lemma RewrittenLine(line: string, kver: string)
    requires CleanLine(line) && PlainVersion(kver)
    ensures var f, out := ParseBlsLine(line), RewriteLine(ParseBlsLine(line), kver);
      CleanLine(out) && FieldLine(out) == if f.Field? then Some(RewriteField(f, kver)) else None
  {
    var f := ParseBlsLine(line);
    ParsedField(line);
    if f.Field? {
      if ValuedField(f) {
        RewrittenValued(f, kver);
      } else {
        RewrittenBare(f, kver);
      }
    } else {
      assert Raw(f) == line;
    }
  }

  lemma CleanStaysOneLine(line: string)
    requires CleanLine(line)
    ensures OneLine(line)
  {
  }

  // --- the whole entry ---

  lemma TrimStripCr(l: string)
    ensures Trim(StripCr(l)) == Trim(l)
  {
  }

  lemma FieldLineIsLineFunction()
    ensures LineFunction(FieldLine)
  {
    forall l: string
      ensures FieldLine(StripCr(l)) == FieldLine(l)
    {
      TrimStripCr(l);
    }
  }

  lemma FieldsAreFilterMap(content: string)
    ensures Fields(content) == FilterMap(FieldLine, Lines(content))
  {
    FieldsByLine(Lines(content));
  }

  lemma RewriteFieldsCons(f: Option<BlsLine>, fields: seq<BlsLine>, kver: string)
    requires f.Some? ==> f.value.Field?
    ensures RewriteFields(Optional(f) + fields, kver)
         == (if f.Some? then [RewriteField(f.value, kver)] else []) + RewriteFields(fields, kver)
  {
    if f.Some? {
      assert (Optional(f) + fields)[1..] == fields;
    } else {
      assert Optional(f) + fields == fields;
    }
  }

  lemma {:induction false} RewrittenLines(lines: seq<string>, kver: string)
    requires PlainVersion(kver) && forall l :: l in lines ==> CleanLine(l)
    ensures var out := RewriteLines(ParseBlsLines(lines), kver);
      && (forall l :: l in out ==> CleanLine(l) && OneLine(l))
      && FilterMap(FieldLine, out) == RewriteFields(FilterMap(FieldLine, lines), kver)
  {
    if lines != [] {
      var rest := ParseBlsLines(lines[1..]);
      var l := RewriteLine(ParseBlsLine(lines[0]), kver);
      RewrittenLine(lines[0], kver);
      RewrittenLines(lines[1..], kver);
      CleanStaysOneLine(l);
      assert ParseBlsLines(lines)[1..] == rest;
      assert RewriteLines(ParseBlsLines(lines), kver) == [l] + RewriteLines(rest, kver);
      FilterMapCons(FieldLine, l, RewriteLines(rest, kver));
      RewriteFieldsCons(FieldLine(lines[0]), FilterMap(FieldLine, lines[1..]), kver);
    }
  }

  /** Whatever the fields are, the repaired entry has their rewrites, in order, and nothing else. */
  lemma RepairedFields(content: string, kver: string)
    requires CleanText(content) && PlainVersion(kver)
    ensures Fields(Repair(content, kver)) == RewriteFields(Fields(content), kver)
  {
    var out := RewriteLines(ParseBls(content), kver);
    RewrittenLines(Lines(content), kver);
    FieldsAreFilterMap(content);
    FieldsAreFilterMap(Join(out, '\n'));
    FieldLineIsLineFunction();
    ReadJoin(FieldLine, out);
  }

  // --- the lens laws ---

  function KeysOf(fields: seq<BlsLine>): seq<string> {
    if fields == [] then [] else (if fields[0].Field? then [fields[0].key] else []) + KeysOf(fields[1..])
  }

  function NewValues(vs: seq<string>, key: string, kver: string): seq<string> {
    if vs == [] then [] else [NewValueOf(key, vs[0], kver)] + NewValues(vs[1..], key, kver)
  }

  lemma {:induction false} NewValuesAt(vs: seq<string>, key: string, kver: string)
    ensures |NewValues(vs, key, kver)| == |vs|
    ensures forall i :: 0 <= i < |vs| ==> NewValues(vs, key, kver)[i] == NewValueOf(key, vs[i], kver)
    ensures key != "linux" && key != "initrd" ==> NewValues(vs, key, kver) == vs
  {
    if vs != [] {
      NewValuesAt(vs[1..], key, kver);
    }
  }

  lemma {:induction false} DropEmptyExact(vs: seq<string>)
    ensures "" !in DropEmpty(vs) && |DropEmpty(vs)| <= |vs|
    ensures |DropEmpty(vs)| == |vs| <==> "" !in vs
    ensures DropEmpty(vs) == vs <==> "" !in vs
  {
    if vs != [] {
      DropEmptyExact(vs[1..]);
    }
  }

  /** A value the scanner reads becomes the new one; an empty value becomes none. */
  lemma RewrittenValue(line: string, key: string, kver: string)
    requires CleanLine(line) && PlainVersion(kver) && PlainKey(key)
    ensures var found, out := FieldOf(line, key), RewriteLine(ParseBlsLine(line), kver);
      FieldOf(out, key)
      == if found.Some? && found.value != "" then Some(NewValueOf(key, found.value, kver)) else None
  {
    var f := ParseBlsLine(line);
    var out := RewriteLine(f, kver);
    ParsedField(line);
    RewrittenLine(line, kver);
    LineAgrees(line, key);
    LineAgrees(out, key);
    if f.Field? && f.value == "" {
      PathsAreValues(kver);
      assert !Contains("", "$tuned_initrd");
      OneWordHasNoField(out, key);
    } else if f.Field? {
      RewrittenValued(f, kver);
    }
  }

  lemma OneWordHasNoField(word: string, key: string)
    requires SpaceFree(word) && PlainKey(key)
    ensures FieldOf(word, key) == None
  {
    var i := SkipFrom(word, 0, Blank);
    assert forall k :: 0 <= k < |word| ==> !IsSpace(word[k]);
  }

  lemma NewValuesCons(v: Option<string>, vs: seq<string>, key: string, kver: string)
    ensures NewValues(DropEmpty(Optional(v) + vs), key, kver)
      == Optional(if v.Some? && v.value != "" then Some(NewValueOf(key, v.value, kver)) else None)
         + NewValues(DropEmpty(vs), key, kver)
  {
    DropEmptyCons(v, vs);
    if v.Some? && v.value != "" {
      assert ([v.value] + DropEmpty(vs))[1..] == DropEmpty(vs);
    } else {
      assert [] + DropEmpty(vs) == DropEmpty(vs);
    }
  }

  lemma {:induction false} RewrittenValues(lines: seq<string>, key: string, kver: string)
    requires PlainVersion(kver) && PlainKey(key) && forall l :: l in lines ==> CleanLine(l)
    ensures FilterMap(FieldOfKey(key), RewriteLines(ParseBlsLines(lines), kver))
         == NewValues(DropEmpty(FilterMap(FieldOfKey(key), lines)), key, kver)
  {
    if lines != [] {
      var rest := ParseBlsLines(lines[1..]);
      var out := RewriteLine(ParseBlsLine(lines[0]), kver);
      RewrittenValue(lines[0], key, kver);
      RewrittenValues(lines[1..], key, kver);
      assert ParseBlsLines(lines)[1..] == rest;
      assert RewriteLines(ParseBlsLines(lines), kver) == [out] + RewriteLines(rest, kver);
      FilterMapCons(FieldOfKey(key), out, RewriteLines(rest, kver));
      NewValuesCons(FieldOf(lines[0], key), FilterMap(FieldOfKey(key), lines[1..]), key, kver);
    }
  }

  /**
   The lens law, for every clean entry and every key: the scanner reads from the repaired entry
   exactly the old values that are not empty, with the new ones put in their places.
   */
  lemma RepairIsLens(content: string, kver: string, key: string)
    requires CleanText(content) && PlainVersion(kver) && PlainKey(key)
    ensures FieldValues(Repair(content, kver), key) == NewValues(DropEmpty(FieldValues(content, key)), key, kver)
  {
    var out := RewriteLines(ParseBls(content), kver);
    FieldOfKeyIsLineFunction(key);
    RawOrStripped(FieldOfKey(key), content);
    RawOrStripped(FieldOfKey(key), Repair(content, kver));
    RewrittenLines(Lines(content), kver);
    ReadJoin(FieldOfKey(key), out);
    RewrittenValues(Lines(content), key, kver);
  }

  /** It keeps every value of a key exactly if none of them is empty. */
  lemma OnlyEmptyValuesGo(content: string, kver: string, key: string)
    requires CleanText(content) && PlainVersion(kver) && PlainKey(key)
    ensures FieldValues(Repair(content, kver), key) == NewValues(FieldValues(content, key), key, kver)
       <==> "" !in FieldValues(content, key)
  {
    RepairIsLens(content, kver, key);
    DropEmptyExact(FieldValues(content, key));
    NewValuesAt(DropEmpty(FieldValues(content, key)), key, kver);
    NewValuesAt(FieldValues(content, key), key, kver);
  }

  /** The values of every other key stay as they were, exactly if none of them is empty. */
  lemma OtherKeysUnchanged(content: string, kver: string, key: string)
    requires CleanText(content) && PlainVersion(kver) && PlainKey(key)
    requires key != "linux" && key != "initrd"
    ensures FieldValues(Repair(content, kver), key) == DropEmpty(FieldValues(content, key))
    ensures FieldValues(Repair(content, kver), key) == FieldValues(content, key) <==> "" !in FieldValues(content, key)
  {
    RepairIsLens(content, kver, key);
    NewValuesAt(DropEmpty(FieldValues(content, key)), key, kver);
    DropEmptyExact(FieldValues(content, key));
  }

  // --- the decision after the repair ---

  ghost predicate OneSlash(v: string) {
    forall i :: 1 <= i < |v| ==> v[i] != '/'
  }

  /** Each bad path needs two slashes. */
  lemma OneSlashIsGood(v: string)
    requires OneSlash(v)
    ensures !HasBadPath(v)
  {
    NeedsTwoSlashes(v, "/root/boot/");
    NeedsTwoSlashes(v, "/boot/vmlinuz-");
    NeedsTwoSlashes(v, "/boot/initramfs-");
  }

  lemma NeedsTwoSlashes(v: string, sub: string)
    requires OneSlash(v) && |sub| > 5 && sub[5] == '/'
    ensures !Contains(v, sub)
  {
  }

  lemma NewPathsAreGood(v: string, kver: string)
    requires PlainVersion(kver)
    ensures !HasBadPath(NewValueOf("linux", v, kver)) && !HasBadPath(NewValueOf("initrd", v, kver))
  {
    assert OneSlash(LinuxPath(kver));
    assert OneSlash(InitrdPath(kver));
    assert OneSlash("$tuned_initrd") && "$tuned_initrd"[0] != '/';
    assert OneSlash(InitrdPath(kver) + " " + "$tuned_initrd");
    OneSlashIsGood(NewValueOf("linux", v, kver));
    OneSlashIsGood(NewValueOf("initrd", v, kver));
  }

  lemma NewValuesAreGood(vs: seq<string>, key: string, kver: string)
    requires PlainVersion(kver) && (key == "linux" || key == "initrd")
    ensures forall v :: v in NewValues(vs, key, kver) ==> !HasBadPath(v)
  {
    NewValuesAt(vs, key, kver);
    forall i | 0 <= i < |vs|
      ensures !HasBadPath(NewValueOf(key, vs[i], kver))
    {
      NewPathsAreGood(vs[i], kver);
    }
  }

  lemma RepairedValuesAreGood(content: string, kver: string, key: string)
    requires CleanText(content) && PlainVersion(kver) && PlainKey(key) && (key == "linux" || key == "initrd")
    ensures forall v :: v in FieldValues(Repair(content, kver), key) ==> !HasBadPath(v)
  {
    RepairIsLens(content, kver, key);
    NewValuesAreGood(DropEmpty(FieldValues(content, key)), key, kver);
  }

  /** The repair clears the test that asked for it. */
  lemma RepairClearsTest(content: string, kver: string)
    requires CleanText(content) && PlainVersion(kver)
    ensures !NeedsFix(Repair(content, kver))
  {
    RepairedValuesAreGood(content, kver, "linux");
    RepairedValuesAreGood(content, kver, "initrd");
  }

  /** A second run changes nothing. */
  lemma FixIsIdempotent(content: string, kver: string)
    requires CleanText(content) && PlainVersion(kver)
    ensures Fixed(Fixed(content, kver), kver) == Fixed(content, kver)
  {
    if NeedsFix(content) {
      RepairClearsTest(content, kver);
    }
  }

  // --- exactly when the fields keep their keys ---

  /** No linux or initrd line is without a value. */
  ghost predicate PathsHaveValues(fields: seq<BlsLine>) {
    forall f :: f in fields && f.Field? && (f.key == "linux" || f.key == "initrd") ==> f.value != ""
  }

  lemma {:induction false} KeysOfRewritten(fields: seq<BlsLine>, kver: string)
    requires forall f :: f in fields ==> ValuedField(f) || BareField(f)
    ensures |KeysOf(RewriteFields(fields, kver))| == |KeysOf(fields)| == |fields|
    ensures KeysOf(RewriteFields(fields, kver)) == KeysOf(fields) <==> PathsHaveValues(fields)
  {
    if fields != [] {
      var f, rest := fields[0], fields[1..];
      assert f in fields;
      var g := RewriteField(f, kver);
      KeysOfRewritten(rest, kver);
      assert RewriteFields(fields, kver) == [g] + RewriteFields(rest, kver);
      assert ([g] + RewriteFields(rest, kver))[1..] == RewriteFields(rest, kver);
      var a, b := KeysOf(RewriteFields(rest, kver)), KeysOf(rest);
      assert [g.key] + a == [f.key] + b <==> g.key == f.key && a == b by {
        assert ([g.key] + a)[0] == g.key && ([f.key] + b)[0] == f.key;
        assert ([g.key] + a)[1..] == a && ([f.key] + b)[1..] == b;
      }
      assert g.key == f.key <==> f.value != "" || !(f.key == "linux" || f.key == "initrd") by {
        assert f.value == "" ==> |g.key| == |f.key| + |NewValue(f, kver)|;
        assert |LinuxPath(kver)| > 0 && |InitrdPath(kver)| > 0;
      }
    }
  }

  lemma {:induction false} FieldsAreWellFormed(lines: seq<string>)
    requires forall l :: l in lines ==> CleanLine(l)
    ensures forall f :: f in FilterMap(FieldLine, lines) ==> ValuedField(f) || BareField(f)
  {
    if lines != [] {
      ParsedField(lines[0]);
      FieldsAreWellFormed(lines[1..]);
    }
  }

  lemma {:induction false} ValuesOfRewritten(fields: seq<BlsLine>, kver: string)
    requires forall f :: f in fields ==> ValuedField(f) || BareField(f)
    ensures AllValued(RewriteFields(fields, kver)) <==> AllValued(fields)
  {
    if fields != [] {
      var f, rest := fields[0], fields[1..];
      assert f in fields;
      var g := RewriteField(f, kver);
      ValuesOfRewritten(rest, kver);
      assert RewriteFields(fields, kver) == [g] + RewriteFields(rest, kver);
      assert forall x :: x in fields <==> x == f || x in rest;
      assert g.value == "" <==> f.value == "" by {
        assert |LinuxPath(kver)| > 0 && |InitrdPath(kver)| > 0;
      }
    }
  }

  /**
   The repair keeps the keys of a clean entry if and only if its linux and initrd lines have
   values; as many fields as before have a value.
   */
  lemma KeysKeptExactly(content: string, kver: string)
    requires CleanText(content) && PlainVersion(kver)
    ensures KeysOf(Fields(Repair(content, kver))) == KeysOf(Fields(content)) <==> PathsHaveValues(Fields(content))
    ensures AllValued(Fields(Repair(content, kver))) <==> AllValued(Fields(content))
  {
    FieldsAreFilterMap(content);
    FieldsAreWellFormed(Lines(content));
    RepairedFields(content, kver);
    KeysOfRewritten(Fields(content), kver);
    ValuesOfRewritten(Fields(content), kver);
  }

  /** An entry whose kernel path asks for repair and whose initrd line has no value. */
  function BareInitrdEntry(kver: string): string {
    "linux" + " " + ("/boot/vmlinuz-" + kver) + "\n" + "initrd"
  }

  /** Two lines: one that asks for repair, and a bare initrd key. */
  ghost predicate BadThenBare(content: string, line: string, v: string) {
    && Lines(content) == RawLines(content) == [line] + ["initrd"]
    && CleanLine(line) && FieldOf(line, "linux") == Some(v) && HasBadPath(v)
  }

  lemma BadThenBareNeedsFix(content: string, line: string, v: string)
    requires BadThenBare(content, line, v)
    ensures NeedsFix(content)
  {
    FilterMapCons(FieldOfKey("linux"), line, ["initrd"]);
  }

  lemma BadThenBareIsClean(content: string, line: string, v: string)
    requires BadThenBare(content, line, v)
    ensures CleanText(content)
  {
    ReparseBare("initrd");
  }

  lemma BareLineIsField(content: string, i: nat)
    requires CleanText(content) && i < |Lines(content)| && Lines(content)[i] == "initrd"
    ensures !PathsHaveValues(Fields(content))
  {
    ReparseBare("initrd");
    FieldsAreFilterMap(content);
    InFilterMap(FieldLine, Lines(content), i);
    assert Field("initrd", "", "initrd") in Fields(content);
  }

  /** A key, a space and a word make a line with that field. */
  lemma WordField(key: string, v: string)
    requires PlainKey(key) && key[0] != '#' && SpaceFree(v) && v != ""
    ensures FieldOf(key + " " + v, key) == Some(v)
  {
    var line := key + " " + v;
    var n := |key|;
    assert line[0..n] == key && line[n + 1..|line|] == v;
    assert line[0] == key[0] && line[n] == ' ' && line[n + 1] == v[0] && line[|line| - 1] == v[|v| - 1];
    ShapeIsField(line, key, 0, n + 1, |line|);
  }

  lemma WordsAreClean(key: string, v: string)
    requires SpaceFree(key) && SpaceFree(v) && v != ""
    ensures var line := key + " " + v; OneLine(line) && CleanLine(line) && StripCr(line) == line
  {
    var line := key + " " + v;
    assert forall k :: 0 <= k < |line| ==>
      line[k] == if k < |key| then key[k] else if k == |key| then ' ' else v[k - |key| - 1];
    assert line[|line| - 1] == v[|v| - 1];
  }

  lemma BadLinuxPath(kver: string)
    requires PlainVersion(kver)
    ensures var v := "/boot/vmlinuz-" + kver; SpaceFree(v) && HasBadPath(v)
  {
    assert SpaceFree("/boot/vmlinuz-");
    assert Matches("/boot/vmlinuz-" + kver, "/boot/vmlinuz-", 0);
  }

  lemma TwoLines(line: string, last: string)
    requires OneLine(line) && StripCr(line) == line && OneLine(last) && last != ""
    ensures var content := line + "\n" + last; Lines(content) == RawLines(content) == [line] + [last]
  {
    LinesHead(line, last);
    LinesOne(last);
  }

  /** Such an entry is repaired, and loses the key of the initrd line. */
  lemma BareInitrdLosesItsKey(kver: string)
    requires PlainVersion(kver)
    ensures NeedsFix(BareInitrdEntry(kver))
    ensures KeysOf(Fields(Repair(BareInitrdEntry(kver), kver))) != KeysOf(Fields(BareInitrdEntry(kver)))
  {
    var v := "/boot/vmlinuz-" + kver;
    BadLinuxPath(kver);
    WordField("linux", v);
    WordsAreClean("linux", v);
    TwoLines("linux" + " " + v, "initrd");
    BadThenBareLosesItsKey(BareInitrdEntry(kver), "linux" + " " + v, v, kver);
  }

  lemma BadThenBareLosesItsKey(content: string, line: string, v: string, kver: string)
    requires BadThenBare(content, line, v) && PlainVersion(kver)
    ensures NeedsFix(content) && KeysOf(Fields(Repair(content, kver))) != KeysOf(Fields(content))
  {
    BadThenBareNeedsFix(content, line, v);
    BadThenBareIsClean(content, line, v);
    BareLineIsField(content, 1);
    KeysKeptExactly(content, kver);
  }

  // --- the hook ---

  datatype FixError =
    NoMachineId | ReadFailed | WriteFailed | KernelUnresolved | InitramfsUnresolved | ExchangeFailed

  /** Which of the calls to the system succeed, and which of the new paths resolve. */
  datatype FixOutcomes = FixOutcomes(
    machineId: bool, read: bool, remove: bool, write: bool, linuxResolves: bool, initrdResolves: bool, exchange: bool)

  /** Everything after the decision succeeds. */
  predicate Replaces(o: FixOutcomes) {
    o.write && o.linuxResolves && o.initrdResolves && o.exchange
  }

  /** The directory of BLS entries: file names and their texts. */
  class EntryDir {
    var files: map<string, string>

    constructor (files: map<string, string>)
      ensures this.files == files
    {
      this.files := files;
    }

    /** remove_file with its result ignored. */
    method RemoveQuietly(name: string, works: bool)
      modifies this
      ensures files == if works then old(files) - {name} else old(files)
    {
      if works {
        files := files - {name};
      }
    }

    /** The decision, made through the scanner. */
    method Decide(content: string) returns (needsFix: bool)
      ensures needsFix == NeedsFix(content)
    {
      var linux := BlsField(content, "linux");
      var initrd := BlsFieldAll(content, "initrd");
      needsFix :=
        (linux.Some? && HasBadPath(linux.value)) || exists i :: 0 <= i < |initrd| && HasBadPath(initrd[i]);
    }

    /** Written alongside, checked, exchanged, cleaned up; only an exchange touches the file itself. */
    method Replace(name: string, text: string, o: FixOutcomes) returns (error: Option<FixError>)
      requires name in files
      modifies this
      ensures error == Some(WriteFailed) <==> !o.write
      ensures error == Some(KernelUnresolved) <==> o.write && !o.linuxResolves
      ensures error == Some(InitramfsUnresolved) <==> o.write && o.linuxResolves && !o.initrdResolves
      ensures error == Some(ExchangeFailed) <==> o.write && o.linuxResolves && o.initrdResolves && !o.exchange
      ensures error.None? <==> Replaces(o)
      ensures files - {name, name + ".new"} == old(files) - {name, name + ".new"}
      ensures name in files && files[name] == if Replaces(o) then text else old(files)[name]
      ensures error.None? ==>
        if o.remove then name + ".new" !in files
        else name + ".new" in files && files[name + ".new"] == old(files)[name]
      ensures error == Some(ExchangeFailed) ==> name + ".new" in files && files[name + ".new"] == text
    {
      var newName := name + ".new";
      assert |newName| > |name|;
      RemoveQuietly(newName, o.remove);
      if !o.write {
        return Some(WriteFailed);
      }
      files := files[newName := text];
      if !o.linuxResolves {
        RemoveQuietly(newName, o.remove);
        return Some(KernelUnresolved);
      }
      if !o.initrdResolves {
        RemoveQuietly(newName, o.remove);
        return Some(InitramfsUnresolved);
      }
      if !o.exchange {
        return Some(ExchangeFailed);
      }
      files := files[name := files[newName]][newName := files[name]];
      RemoveQuietly(newName, o.remove);
      return None;
    }

    /**
     Repairs the entry of one kernel. On success the entry holds the fixed text; on any error it
     keeps its old text; no other entry changes.
     */
    method FixBlsPaths(name: string, kver: string, o: FixOutcomes) returns (error: Option<FixError>)
      modifies this
      ensures error == Some(NoMachineId) <==> !o.machineId
      ensures error == Some(ReadFailed) <==> o.machineId && name in old(files) && !o.read
      ensures o.machineId && (name !in old(files) || (o.read && !NeedsFix(old(files)[name]))) ==> error.None?
      ensures o.machineId && name in old(files) && o.read && NeedsFix(old(files)[name]) ==>
        && (error == Some(WriteFailed) <==> !o.write)
        && (error == Some(KernelUnresolved) <==> o.write && !o.linuxResolves)
        && (error == Some(InitramfsUnresolved) <==> o.write && o.linuxResolves && !o.initrdResolves)
        && (error == Some(ExchangeFailed) <==> o.write && o.linuxResolves && o.initrdResolves && !o.exchange)
        && (error.None? <==> Replaces(o))
      ensures files - {name, name + ".new"} == old(files) - {name, name + ".new"}
      ensures name in files <==> name in old(files)
      ensures name in files ==> files[name] == if error.None? then Fixed(old(files)[name], kver) else old(files)[name]
      ensures name in files && o.read && !NeedsFix(old(files)[name]) ==> files == old(files)
      ensures error.None? && name in files && NeedsFix(old(files)[name]) ==>
        if o.remove then name + ".new" !in files
        else name + ".new" in files && files[name + ".new"] == old(files)[name]
      ensures error == Some(ExchangeFailed) ==>
        name in files && name + ".new" in files && files[name + ".new"] == Repair(old(files)[name], kver)
    {
      if !o.machineId {
        return Some(NoMachineId);
      }
      if name !in files {
        return None;
      }
      if !o.read {
        return Some(ReadFailed);
      }
      var needsFix := Decide(files[name]);
      var blsLines := ParseBls(files[name]);
      if !needsFix {
        return None;
      }
      error := Replace(name, Join(RewriteLines(blsLines, kver), '\n'), o);
    }
  }
}
