/** The output format of "btrfs subvolume list": printing, parsing, and the round trip. */
module SubvolList {
  import opened Wrappers
  import opened Text
  import opened Numbers

  /** The two fields of a listed subvolume that the tool uses. */
  datatype Entry = Entry(id: nat, path: string)

  /** A parsed line; generation and top level only validate the format. */
  datatype SubvolEntry = SubvolEntry(entry: Entry, generation: nat, topLevel: nat)

  datatype Halves = Halves(before: string, after: string)

  /** str::split_once */
  function SplitOnce(s: string, sub: string): Option<Halves> {
    match Find(s, sub)
    case None => None
    case Some(i) => Some(Halves(s[..i], s[i + |sub|..]))
  }

  function ParseSubvolLine(line: string): Option<SubvolEntry> {
    if !("ID " <= line) then None
    else
      match SplitOnce(line[3..], " gen ")
      case None => None
      case Some(a) =>
        match SplitOnce(a.after, " top level ")
        case None => None
        case Some(b) =>
          match SplitOnce(b.after, " path ")
          case None => None
          case Some(c) =>
            var id, gen, top := ParseU64(a.before), ParseU64(b.before), ParseU64(c.before);
            if id.Some? && gen.Some? && top.Some? then Some(SubvolEntry(Entry(id.value, c.after), gen.value, top.value))
            else None
  }

  function ParseAll(lines: seq<string>): Option<seq<SubvolEntry>> {
    if lines == [] then Some([])
    else
      match ParseSubvolLine(lines[0])
      case None => None
      case Some(e) =>
        match ParseAll(lines[1..])
        case None => None
        case Some(rest) => Some([e] + rest)
  }

  /** The entries in a command's output, which is trimmed before it is split into lines. */
  function ParseList(output: string): Option<seq<SubvolEntry>> {
    ParseAll(Lines(Trim(output)))
  }

  /** What the tool goes on with. */
  function Used(entries: seq<SubvolEntry>): seq<Entry> {
    if entries == [] then [] else [entries[0].entry] + Used(entries[1..])
  }

  // --- the documented format ---

  function PathPart(e: SubvolEntry): string {
    ToDec(e.topLevel) + " path " + e.entry.path
  }

  function TopPart(e: SubvolEntry): string {
    ToDec(e.generation) + " top level " + PathPart(e)
  }

  function PrintLine(e: SubvolEntry): string {
    "ID " + (ToDec(e.entry.id) + " gen " + TopPart(e))
  }

  function PrintLines(entries: seq<SubvolEntry>): seq<string> {
    if entries == [] then [] else [PrintLine(entries[0])] + PrintLines(entries[1..])
  }

  function PrintList(entries: seq<SubvolEntry>): string {
    if entries == [] then "" else Join(PrintLines(entries), '\n') + "\n"
  }

  ghost predicate Printable(e: SubvolEntry) {
    && e.entry.id <= U64_MAX && e.generation <= U64_MAX && e.topLevel <= U64_MAX
    && OneLine(e.entry.path) && e.entry.path != "" && !IsSpace(e.entry.path[|e.entry.path| - 1])
  }

  // --- round trip ---

  /** A number is cut off at the first separator, whatever follows. */
  lemma CutNumber(n: nat, sub: string, rest: string)
    requires sub != "" && sub[0] == ' '
    ensures SplitOnce(ToDec(n) + sub + rest, sub) == Some(Halves(ToDec(n), rest))
  {
    var a := ToDec(n);
    var s := a + sub + rest;
    forall m: nat | m < |a|
      ensures !Matches(s, sub, m)
    {
      assert s[m] == a[m];
      assert m + |sub| <= |s| ==> s[m..m + |sub|][0] == a[m];
    }
    assert Matches(s, sub, |a|);
    assert Find(s, sub) == Some(|a|);
    assert s[..|a|] == a && s[|a| + |sub|..] == rest;
  }

  /** One line: all u64 ids, and any path, also one that holds the separators. */
  lemma LineRoundTrip(e: SubvolEntry)
    requires e.entry.id <= U64_MAX && e.generation <= U64_MAX && e.topLevel <= U64_MAX
    ensures ParseSubvolLine(PrintLine(e)) == Some(e)
  {
    var line := PrintLine(e);
    assert line[3..] == ToDec(e.entry.id) + " gen " + TopPart(e);
    CutNumber(e.entry.id, " gen ", TopPart(e));
    CutNumber(e.generation, " top level ", PathPart(e));
    CutNumber(e.topLevel, " path ", e.entry.path);
    ParseU64RoundTrip(e.entry.id);
    ParseU64RoundTrip(e.generation);
    ParseU64RoundTrip(e.topLevel);
  }

  lemma ParseAllCons(line: string, e: SubvolEntry, rest: seq<string>, entries: seq<SubvolEntry>)
    requires ParseSubvolLine(line) == Some(e) && ParseAll(rest) == Some(entries)
    ensures ParseAll([line] + rest) == Some([e] + entries)
  {
    assert ([line] + rest)[1..] == rest;
  }

  lemma PrintedHead(e: SubvolEntry, rest: seq<SubvolEntry>)
    requires Printable(e) && ParseAll(PrintLines(rest)) == Some(rest)
    ensures ParseAll([PrintLine(e)] + PrintLines(rest)) == Some([e] + rest)
  {
    LineRoundTrip(e);
    ParseAllCons(PrintLine(e), e, PrintLines(rest), rest);
  }

  lemma {:induction false} ParsePrinted(entries: seq<SubvolEntry>)
    requires forall e :: e in entries ==> Printable(e)
    ensures ParseAll(PrintLines(entries)) == Some(entries)
  {
    if entries != [] {
      assert entries[0] in entries;
      ParsePrinted(entries[1..]);
      PrintedHead(entries[0], entries[1..]);
      assert entries == [entries[0]] + entries[1..];
    }
  }

  lemma PrintedLine(e: SubvolEntry)
    requires Printable(e)
    ensures var l := PrintLine(e);
      OneLine(l) && l[0] == 'I' && |l| > 1 && !IsSpace(l[|l| - 1])
  {
  }

  /** Lines of joined printed lines, with the last line break trimmed away. */
  lemma {:induction false} LinesOfPrinted(entries: seq<SubvolEntry>)
    requires entries != [] && forall e :: e in entries ==> Printable(e)
    ensures var text := Join(PrintLines(entries), '\n');
      Lines(text) == PrintLines(entries) && text != "" && text[0] == 'I' && !IsSpace(text[|text| - 1])
  {
    var a, rest := PrintLine(entries[0]), entries[1..];
    assert entries[0] in entries;
    PrintedLine(entries[0]);
    assert StripCr(a) == a;
    assert PrintLines(entries) == [a] + PrintLines(rest);
    JoinCons(a, PrintLines(rest), '\n');
    if rest == [] {
      LinesOne(a);
    } else {
      LinesOfPrinted(rest);
      LinesHead(a, Join(PrintLines(rest), '\n'));
    }
  }

  /** Printing a list and parsing the output gives back every entry, in order. */
  lemma ListRoundTrip(entries: seq<SubvolEntry>)
    requires forall e :: e in entries ==> Printable(e)
    ensures ParseList(PrintList(entries)) == Some(entries)
  {
    if entries == [] {
      assert Trim("") == "";
    } else {
      var text := Join(PrintLines(entries), '\n');
      LinesOfPrinted(entries);
      assert forall k :: 0 <= k < |text| ==> (text + "\n")[k] == text[k];
      CoreIsTrim(text + "\n", 0, |text|);
      assert (text + "\n")[0..|text|] == text;
      ParsePrinted(entries);
    }
  }
}
