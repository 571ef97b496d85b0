/** The fstab(5) grammar: lines, entries, octal escapes, device references. */
module Fstab {
  import opened Wrappers
  import opened Text
  import opened Numbers
  import opened Scanners

  // --- device references and file system types ---

  datatype DeviceSpec =
    | Uuid(v: string) | Label(v: string) | PartUuid(v: string)
    | PartLabel(v: string) | Id(v: string) | Path(v: string)

  function ParseSpec(spec: string): DeviceSpec {
    if "UUID=" <= spec then Uuid(spec[5..])
    else if "LABEL=" <= spec then Label(spec[6..])
    else if "PARTUUID=" <= spec then PartUuid(spec[9..])
    else if "PARTLABEL=" <= spec then PartLabel(spec[10..])
    else if "ID=" <= spec then Id(spec[3..])
    else Path(spec)
  }

  function Display(d: DeviceSpec): string {
    match d
    case Uuid(v) => "UUID=" + v
    case Label(v) => "LABEL=" + v
    case PartUuid(v) => "PARTUUID=" + v
    case PartLabel(v) => "PARTLABEL=" + v
    case Id(v) => "ID=" + v
    case Path(v) => v
  }

  /** The written form of a parsed reference is the text it came from. */
  lemma DisplayParse(spec: string)
    ensures Display(ParseSpec(spec)) == spec
  {
  }

  datatype FsType = Btrfs | Ext4 | Swap | Other(name: string)

  function ParseFsType(name: string): FsType {
    if name == "btrfs" then Btrfs
    else if name == "ext4" then Ext4
    else if name == "swap" then Swap
    else Other(name)
  }

  // --- octal escapes ---

  function Unescape(escape: string): string {
    if escape == "040" then " "
    else if escape == "011" then "\t"
    else if escape == "012" then "\n"
    else if escape == "134" then "\\"
    else "\\" + escape
  }

  /** End of the escape that starts at i: three more characters, or fewer at the end. */
  function EscapeEnd(s: string, i: nat): (n: nat)
    requires i < |s|
    ensures i < n <= |s|
  {
    if i + 4 <= |s| then i + 4 else |s|
  }

  function Decode(s: string): string
    decreases |s|
  {
    if s == "" then ""
    else if s[0] == '\\' then
      var n := EscapeEnd(s, 0);
      Unescape(s[1..n]) + Decode(s[n..])
    else [s[0]] + Decode(s[1..])
  }

  lemma DecodeAt(field: string, i: nat)
    requires i < |field|
    ensures var n := EscapeEnd(field, i);
      Decode(field[i..]) == if field[i] == '\\' then Unescape(field[i + 1..n]) + Decode(field[n..])
                            else [field[i]] + Decode(field[i + 1..])
  {
    var rest, n := field[i..], EscapeEnd(field, i);
    if field[i] == '\\' {
      assert EscapeEnd(rest, 0) == n - i;
      assert rest[1..n - i] == field[i + 1..n] && rest[n - i..] == field[n..];
    } else {
      assert rest[1..] == field[i + 1..];
    }
  }

  method FstabDecode(field: string) returns (result: string)
    ensures result == Decode(field)
  {
    result := "";
    var i := 0;
    assert field[0..] == field;
    while i < |field|
      invariant 0 <= i <= |field|
      invariant Decode(field) == result + Decode(field[i..])
    {
      DecodeAt(field, i);
      if field[i] == '\\' {
        var n := EscapeEnd(field, i);
        var escape := field[i + 1..n];
        ConcatAssoc(result, Unescape(escape), Decode(field[n..]));
        result := result + Unescape(escape);
        i := n;
      } else {
        ConcatAssoc(result, [field[i]], Decode(field[i + 1..]));
        result := result + [field[i]];
        i := i + 1;
      }
    }
    assert field[i..] == "";
  }

  /** The encoding that getmntent(3) undoes. */
  function EncodeChar(c: char): string {
    if c == ' ' then "\\040"
    else if c == '\t' then "\\011"
    else if c == '\n' then "\\012"
    else if c == '\\' then "\\134"
    else [c]
  }

  function Encode(s: string): string {
    if s == "" then "" else EncodeChar(s[0]) + Encode(s[1..])
  }

  lemma DecodeHead(c: char, rest: string)
    ensures Decode(EncodeChar(c) + rest) == [c] + Decode(rest)
  {
  }

  /** Decoding inverts encoding, for every string. */
  lemma {:induction false} DecodeEncode(s: string)
    ensures Decode(Encode(s)) == s
  {
    if s != "" {
      DecodeEncode(s[1..]);
      DecodeHead(s[0], Encode(s[1..]));
    }
  }

  lemma {:induction false} DecodePlain(s: string)
    requires '\\' !in s
    ensures Decode(s) == s
  {
    if s != "" {
      assert s[0] in s;
      DecodePlain(s[1..]);
    }
  }

  /** Decoding never lengthens and never produces an empty or comment-like field from another. */
  lemma {:induction false} DecodeShrinks(s: string)
    ensures |Decode(s)| <= |s|
    ensures s != "" ==> Decode(s) != ""
    ensures s != "" && s[0] != '#' ==> Decode(s)[0] != '#'
    decreases |s|
  {
    if s != "" {
      DecodeShrinks(if s[0] == '\\' then s[EscapeEnd(s, 0)..] else s[1..]);
    }
  }

  // --- lines and entries ---

  datatype FstabEntry = FstabEntry(
    spec: DeviceSpec, file: string, vfstype: FsType, mntops: string, freq: int, passno: int)

  datatype FstabLine = Comment(raw: string) | Blank(raw: string) | Entry(entry: FstabEntry, raw: string)

  function NumberOr0(fields: seq<string>, i: nat): int {
    if i < |fields| && ParseI32(fields[i]).Some? then ParseI32(fields[i]).value else 0
  }

  function EntryOfFields(fields: seq<string>): FstabEntry
    requires |fields| >= 4
  {
    FstabEntry(ParseSpec(Decode(fields[0])), Decode(fields[1]), ParseFsType(fields[2]), fields[3],
               NumberOr0(fields, 4), NumberOr0(fields, 5))
  }

  function ParseLine(line: string): FstabLine {
    var trimmed := Trim(line);
    if trimmed == "" then FstabLine.Blank(line)
    else if trimmed[0] == '#' then Comment(line)
    else
      var fields := SplitWs(line);
      if |fields| < 4 then Comment(line) else Entry(EntryOfFields(fields), line)
  }

  function ParseLines(lines: seq<string>): seq<FstabLine> {
    if lines == [] then [] else [ParseLine(lines[0])] + ParseLines(lines[1..])
  }

  function ParseFstab(content: string): seq<FstabLine> {
    ParseLines(Lines(content))
  }

  function EntriesOf(lines: seq<FstabLine>): seq<FstabEntry> {
    if lines == [] then []
    else (match lines[0] case Entry(e, _) => [e] case _ => []) + EntriesOf(lines[1..])
  }

  /** The entries of an fstab, without the text they came from. */
  function Entries(content: string): seq<FstabEntry> {
    EntriesOf(ParseFstab(content))
  }

  /** The entry on a line, read off its words. */
  function EntryOf(line: string): Option<FstabEntry> {
    var fields := SplitWs(line);
    if |fields| >= 4 && fields[0] != "" && fields[0][0] != '#' then Some(EntryOfFields(fields)) else None
  }

  /** Trimming and splitting see the same first character. */
  lemma {:induction false} TrimAndWords(line: string)
    ensures Trim(line) == "" <==> SplitWs(line) == []
    ensures Trim(line) != "" ==> SplitWs(line)[0] != "" && SplitWs(line)[0][0] == Trim(line)[0]
    decreases |line|
  {
    if line != "" && IsSpace(line[0]) {
      TrimAndWords(line[1..]);
      TrimTail(line);
    }
  }

  lemma TrimTail(line: string)
    requires line != "" && IsSpace(line[0])
    ensures Trim(line) == Trim(line[1..])
  {
  }

  lemma LineEntry(line: string)
    ensures EntryOf(line) == match ParseLine(line) case Entry(e, _) => Some(e) case _ => None
  {
    TrimAndWords(line);
  }

  lemma {:induction false} EntriesByLine(lines: seq<string>)
    ensures EntriesOf(ParseLines(lines)) == FilterMap(EntryOf, lines)
  {
    if lines != [] {
      LineEntry(lines[0]);
      EntriesByLine(lines[1..]);
      assert ParseLines(lines)[1..] == ParseLines(lines[1..]);
    }
  }

  lemma EntriesAreFilterMap(content: string)
    ensures Entries(content) == FilterMap(EntryOf, Lines(content))
  {
    EntriesByLine(Lines(content));
  }

  lemma EntryOfIsLineFunction()
    ensures LineFunction(EntryOf)
  {
    forall l: string
      ensures EntryOf(StripCr(l)) == EntryOf(l)
    {
      if l != "" && l[|l| - 1] == '\r' {
        SplitWsTrailing(StripCr(l), '\r');
        assert StripCr(l) + "\r" == l;
      }
    }
  }

  // --- what the tool reads from fstab ---

  function FindFile(entries: seq<FstabEntry>, file: string): Option<FstabEntry> {
    if entries == [] then None
    else if entries[0].file == file then Some(entries[0])
    else FindFile(entries[1..], file)
  }

  function RootEntry(fstab: string): Option<FstabEntry> {
    FindFile(Entries(fstab), "/")
  }

  /** The subvol= value of the first entry for "/". */
  function RootSubvolName(fstab: string): Option<string> {
    match RootEntry(fstab)
    case Some(e) => MountOption(e.mntops, "subvol")
    case None => None
  }

  function SubvolNames(entries: seq<FstabEntry>): seq<string> {
    if entries == [] then []
    else Optional(MountOption(entries[0].mntops, "subvol")) + SubvolNames(entries[1..])
  }

  /** System subvolumes: every subvol= value in fstab. */
  function FstabSubvolNames(fstab: string): seq<string> {
    SubvolNames(Entries(fstab))
  }

  lemma {:induction false} FoundIsNamed(entries: seq<FstabEntry>, file: string)
    ensures var found := FindFile(entries, file);
      found.Some? && MountOption(found.value.mntops, "subvol").Some? ==>
        MountOption(found.value.mntops, "subvol").value in SubvolNames(entries)
  {
    if entries != [] {
      FoundIsNamed(entries[1..], file);
    }
  }

  /** The root subvolume is one of the system subvolumes, so it is never deleted. */
  lemma RootIsProtected(fstab: string)
    requires RootSubvolName(fstab).Some?
    ensures RootSubvolName(fstab).value in FstabSubvolNames(fstab)
  {
    FoundIsNamed(Entries(fstab), "/");
  }

  lemma {:induction false} FoundHasFile(entries: seq<FstabEntry>, file: string)
    ensures FindFile(entries, file).Some? ==>
      FindFile(entries, file).value in entries && FindFile(entries, file).value.file == file
  {
    if entries != [] {
      FoundHasFile(entries[1..], file);
    }
  }
}
