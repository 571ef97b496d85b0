/** The ESP grub.cfg stub: its contract values, how they are extracted and how they are rendered. */
module EspStub {
  import opened Wrappers
  import opened Text

  datatype Stub = Stub(bootUuid: string, grubDir: string, btrfsRelative: bool)

  datatype StubError = NoSearchLine | NoPrefixLine

  const UUID_FLAG := "--fs-uuid"
  const PREFIX := "prefix="
  const RELATIVE := "btrfs_relative_path"
  const YES := "yes"

  /** lines().find(contains) */
  function FirstWith(lines: seq<string>, sub: string): Option<string> {
    if lines == [] then None
    else if Contains(lines[0], sub) then Some(lines[0])
    else FirstWith(lines[1..], sub)
  }

  predicate SaysRelative(line: string) {
    Contains(line, RELATIVE) && Contains(line, YES)
  }

  predicate AnySaysRelative(lines: seq<string>) {
    lines != [] && (SaysRelative(lines[0]) || AnySaysRelative(lines[1..]))
  }

  function LastWord(line: string): Option<string> {
    var words := SplitWs(line);
    if words == [] then None else Some(words[|words| - 1])
  }

  function AfterParen(line: string): Option<string> {
    var parts := Split(line, ')');
    if |parts| < 2 then None else Some(Trim(parts[1]))
  }

  function AndThen(o: Option<string>, f: string -> Option<string>): Option<string> {
    match o case Some(v) => f(v) case None => None
  }

  function ParseLines(lines: seq<string>): Result<Stub, StubError> {
    match AndThen(FirstWith(lines, UUID_FLAG), LastWord)
    case None => Err(NoSearchLine)
    case Some(uuid) =>
      match AndThen(FirstWith(lines, PREFIX), AfterParen)
      case None => Err(NoPrefixLine)
      case Some(dir) => Ok(Stub(uuid, dir, AnySaysRelative(lines)))
  }

  function Parse(content: string): Result<Stub, StubError> {
    ParseLines(Lines(content))
  }

  // --- rendering ---

  const RELATIVE_LINE := "set " + RELATIVE + "=\"" + YES + "\""
  const SEARCH_COMMAND := "search --no-floppy "
  const SEARCH_FLAG := "--root-dev-only "
  const SEARCH_FRONT := SEARCH_COMMAND + SEARCH_FLAG
  const SEARCH_BACK := " --set=dev"
  const PREFIX_FRONT := "set "
  const PREFIX_BACK := "($dev"
  const EXPORT_LINE := "export $prefix"
  const CONFIG_LINE := "configfile $prefix/grub.cfg"

  function SearchLine(uuid: string): string {
    SEARCH_FRONT + UUID_FLAG + SEARCH_BACK + " " + uuid
  }

  function PrefixLine(dir: string): string {
    PREFIX_FRONT + PREFIX + PREFIX_BACK + ")" + dir
  }

  function RenderLines(s: Stub): seq<string> {
    (if s.btrfsRelative then [RELATIVE_LINE] else [])
    + [SearchLine(s.bootUuid), PrefixLine(s.grubDir), EXPORT_LINE, CONFIG_LINE]
  }

  function Render(s: Stub): string {
    Join(RenderLines(s), '\n') + "\n"
  }

  // --- which stubs survive ---

  ghost predicate HexOrDash(c: char) {
    '0' <= c <= '9' || 'a' <= c <= 'f' || 'A' <= c <= 'F' || c == '-'
  }

  ghost predicate PlainUuid(u: string) {
    u != "" && forall i :: 0 <= i < |u| ==> HexOrDash(u[i])
  }

  ghost predicate PlainDir(d: string) {
    ')' !in d && OneLine(d) && (d == "" || (!IsSpace(d[0]) && !IsSpace(d[|d| - 1])))
  }

  // --- what the rendered lines hold ---

  ghost predicate Clean(line: string) {
    OneLine(line) && StripCr(line) == line
  }

  lemma HoldsMiddle(a: string, sub: string, b: string)
    ensures Contains(a + sub + b, sub)
  {
    assert Matches(a + sub + b, sub, |a|);
  }

  /** A needle whose first character is not in the front is in a + b just when it is in b. */
  lemma FrontDoesNotHelp(a: string, b: string, sub: string)
    requires sub != "" && sub[0] !in a
    ensures Contains(a + b, sub) == Contains(b, sub)
  {
    var s := a + b;
    forall i: nat
      ensures Matches(b, sub, i) == Matches(s, sub, i + |a|)
    {
      assert i + |sub| <= |b| ==> s[i + |a|..i + |a| + |sub|] == b[i..i + |sub|];
    }
    forall i: nat | i < |a|
      ensures !Matches(s, sub, i)
    {
      assert s[i] == a[i];
      assert i + |sub| <= |s| ==> s[i..i + |sub|][0] == a[i];
    }
    ContainsExact(b, sub);
    ContainsExact(s, sub);
    if Contains(s, sub) {
      var i: nat :| Matches(s, sub, i);
      assert i >= |a|;
      assert Matches(b, sub, i - |a|);
    }
  }

  lemma SearchLineWords(uuid: string)
    requires PlainUuid(uuid)
    ensures LastWord(SearchLine(uuid)) == Some(uuid)
  {
    assert SpaceFree(uuid);
    WordsConcat(SEARCH_FRONT + UUID_FLAG + SEARCH_BACK, ' ', uuid, Space);
    SplitWsWord(uuid);
  }

  lemma SearchLineHolds(uuid: string)
    ensures Contains(SearchLine(uuid), UUID_FLAG)
  {
    assert SearchLine(uuid) == SEARCH_FRONT + UUID_FLAG + (SEARCH_BACK + " " + uuid);
    HoldsMiddle(SEARCH_FRONT, UUID_FLAG, SEARCH_BACK + " " + uuid);
  }

  lemma SearchLineParts(uuid: string)
    requires PlainUuid(uuid)
    ensures Contains(SearchLine(uuid), UUID_FLAG)
    ensures !Contains(SearchLine(uuid), PREFIX) && !Contains(SearchLine(uuid), RELATIVE)
    ensures LastWord(SearchLine(uuid)) == Some(uuid)
    ensures Clean(SearchLine(uuid))
  {
    var line := SearchLine(uuid);
    SearchLineHolds(uuid);
    SearchLineWords(uuid);
    SearchLineLacks(uuid);
    assert PREFIX[5] == 'x' && RELATIVE[5] == '_';
    NotContained(line, PREFIX, 5);
    NotContained(line, RELATIVE, 5);
    assert line[|line| - 1] == uuid[|uuid| - 1];
  }

  lemma SearchLineLacks(uuid: string)
    requires PlainUuid(uuid)
    ensures 'x' !in SearchLine(uuid) && '_' !in SearchLine(uuid) && '\n' !in SearchLine(uuid)
  {
    SearchFrontLacks();
    SearchBackLacks();
    assert 'x' !in uuid && '_' !in uuid && '\n' !in uuid;
  }

  lemma SearchCommandLacks()
    ensures 'x' !in SEARCH_COMMAND && '_' !in SEARCH_COMMAND && '\n' !in SEARCH_COMMAND
  {
  }

  lemma SearchFlagLacks()
    ensures 'x' !in SEARCH_FLAG && '_' !in SEARCH_FLAG && '\n' !in SEARCH_FLAG
  {
  }

  lemma SearchFrontLacks()
    ensures 'x' !in SEARCH_FRONT && '_' !in SEARCH_FRONT && '\n' !in SEARCH_FRONT
  {
    SearchCommandLacks();
    SearchFlagLacks();
  }

  lemma SearchBackLacks()
    ensures 'x' !in UUID_FLAG && '_' !in UUID_FLAG && '\n' !in UUID_FLAG
    ensures 'x' !in SEARCH_BACK && '_' !in SEARCH_BACK && '\n' !in SEARCH_BACK
  {
  }

  lemma PrefixLineParts(dir: string)
    requires PlainDir(dir)
    ensures Contains(PrefixLine(dir), PREFIX)
    ensures AfterParen(PrefixLine(dir)) == Some(dir)
    ensures SaysRelative(PrefixLine(dir)) == SaysRelative(dir)
    ensures Clean(PrefixLine(dir))
  {
    var front := PREFIX_FRONT + PREFIX + PREFIX_BACK;
    var line := PrefixLine(dir);
    assert line == PREFIX_FRONT + PREFIX + (PREFIX_BACK + ")" + dir);
    HoldsMiddle(PREFIX_FRONT, PREFIX, PREFIX_BACK + ")" + dir);
    PrefixFrontLacks();
    SplitHead(front, ')', dir);
    SplitOne(dir, ')');
    CoreIsTrim(dir, 0, |dir|);
    assert dir[0..|dir|] == dir;
    assert line == (front + ")") + dir;
    assert RELATIVE[0] == 'b' && YES[0] == 'y';
    FrontDoesNotHelp(front + ")", dir, RELATIVE);
    FrontDoesNotHelp(front + ")", dir, YES);
    assert line[|line| - 1] == if dir == "" then ')' else dir[|dir| - 1];
  }

  lemma PrefixFrontLacks()
    ensures var front := PREFIX_FRONT + PREFIX + PREFIX_BACK;
      ')' !in front && '\n' !in front && 'b' !in front + ")" && 'y' !in front + ")"
  {
  }

  lemma RelativeLineSays()
    ensures SaysRelative(RELATIVE_LINE)
  {
    HoldsMiddle("set ", RELATIVE, "=\"" + YES + "\"");
    HoldsMiddle("set " + RELATIVE + "=\"", YES, "\"");
    assert RELATIVE_LINE == "set " + RELATIVE + "=\"" + YES + "\"";
    assert RELATIVE_LINE == "set " + RELATIVE + ("=\"" + YES + "\"");
  }

  lemma RelativeLineLacks()
    ensures '-' !in RELATIVE_LINE && 'x' !in RELATIVE_LINE && '\n' !in RELATIVE_LINE
  {
  }

  lemma RelativeLineParts()
    ensures SaysRelative(RELATIVE_LINE)
    ensures !Contains(RELATIVE_LINE, UUID_FLAG) && !Contains(RELATIVE_LINE, PREFIX)
    ensures Clean(RELATIVE_LINE)
  {
    RelativeLineSays();
    RelativeLineLacks();
    assert UUID_FLAG[0] == '-' && PREFIX[5] == 'x';
    NotContained(RELATIVE_LINE, UUID_FLAG, 0);
    NotContained(RELATIVE_LINE, PREFIX, 5);
  }

  lemma ExportLineParts()
    ensures !SaysRelative(EXPORT_LINE) && Clean(EXPORT_LINE)
  {
    assert RELATIVE[5] == '_';
    assert '_' !in EXPORT_LINE && '\n' !in EXPORT_LINE;
    NotContained(EXPORT_LINE, RELATIVE, 5);
  }

  lemma ConfigLineParts()
    ensures !SaysRelative(CONFIG_LINE) && Clean(CONFIG_LINE)
  {
    assert RELATIVE[5] == '_';
    assert '_' !in CONFIG_LINE && '\n' !in CONFIG_LINE;
    NotContained(CONFIG_LINE, RELATIVE, 5);
  }

  lemma LastLinesParts()
    ensures !SaysRelative(EXPORT_LINE) && !SaysRelative(CONFIG_LINE)
    ensures Clean(EXPORT_LINE) && Clean(CONFIG_LINE)
  {
    ExportLineParts();
    ConfigLineParts();
  }

  lemma AllClean(front: seq<string>, a: string, b: string)
    requires (forall l :: l in front ==> Clean(l)) && Clean(a) && Clean(b)
    requires Clean(EXPORT_LINE) && Clean(CONFIG_LINE)
    ensures forall l :: l in front + [a, b, EXPORT_LINE, CONFIG_LINE] ==> Clean(l)
  {
  }

  lemma RenderedLinesAreClean(s: Stub)
    requires PlainUuid(s.bootUuid) && PlainDir(s.grubDir)
    ensures forall l :: l in RenderLines(s) ==> Clean(l)
  {
    SearchLineParts(s.bootUuid);
    PrefixLineParts(s.grubDir);
    RelativeLineParts();
    LastLinesParts();
    AllClean(if s.btrfsRelative then [RELATIVE_LINE] else [], SearchLine(s.bootUuid), PrefixLine(s.grubDir));
  }

  /** Rendered lines read back as they are. */
  lemma {:induction false} LinesOfJoined(lines: seq<string>)
    requires lines != [] && forall l :: l in lines ==> Clean(l)
    ensures Lines(Join(lines, '\n') + "\n") == lines
  {
    var a := lines[0];
    assert a in lines;
    if |lines| == 1 {
      LinesHead(a, "");
      assert a + "\n" + "" == a + "\n";
    } else {
      LinesOfJoined(lines[1..]);
      LinesOfJoinedCons(a, lines[1..]);
      assert lines == [a] + lines[1..];
    }
  }

  lemma LinesOfJoinedCons(a: string, rest: seq<string>)
    requires Clean(a) && rest != [] && Lines(Join(rest, '\n') + "\n") == rest
    ensures Lines(Join([a] + rest, '\n') + "\n") == [a] + rest
  {
    var text := Join(rest, '\n');
    JoinCons(a, rest, '\n');
    LinesHead(a, text + "\n");
    ConcatAssoc(a + "\n", text, "\n");
  }

  lemma FirstWithCons(line: string, rest: seq<string>, sub: string)
    ensures FirstWith([line] + rest, sub) == if Contains(line, sub) then Some(line) else FirstWith(rest, sub)
  {
  }

  lemma AnySaysCons(line: string, rest: seq<string>)
    ensures AnySaysRelative([line] + rest) == (SaysRelative(line) || AnySaysRelative(rest))
  {
  }

  lemma AnySaysInOrder(a: string, b: string, c: string, d: string)
    ensures AnySaysRelative([a, b, c, d])
      == (SaysRelative(a) || SaysRelative(b) || SaysRelative(c) || SaysRelative(d))
  {
    AnySaysCons(d, []);
    AnySaysCons(c, [d]);
    AnySaysCons(b, [c, d]);
    AnySaysCons(a, [b, c, d]);
    assert [a, b, c, d] == [a] + [b, c, d];
    assert [b, c, d] == [b] + [c, d];
    assert [c, d] == [c] + [d];
    assert [d] == [d] + [];
  }

  /** The four lines every stub has; only the directory can say "relative" among them. */
  lemma ContractLines(a: string, b: string, s: Stub)
    requires Contains(a, UUID_FLAG) && !Contains(a, PREFIX) && !Contains(a, RELATIVE)
    requires Contains(b, PREFIX) && SaysRelative(b) == SaysRelative(s.grubDir)
    ensures var lines := [a, b, EXPORT_LINE, CONFIG_LINE];
      && FirstWith(lines, UUID_FLAG) == Some(a) && FirstWith(lines, PREFIX) == Some(b)
      && AnySaysRelative(lines) == SaysRelative(s.grubDir)
  {
    LastLinesParts();
    AnySaysInOrder(a, b, EXPORT_LINE, CONFIG_LINE);
    FirstWithCons(a, [b, EXPORT_LINE, CONFIG_LINE], UUID_FLAG);
    FirstWithCons(a, [b, EXPORT_LINE, CONFIG_LINE], PREFIX);
    FirstWithCons(b, [EXPORT_LINE, CONFIG_LINE], PREFIX);
    assert [a, b, EXPORT_LINE, CONFIG_LINE] == [a] + [b, EXPORT_LINE, CONFIG_LINE];
    assert [b, EXPORT_LINE, CONFIG_LINE] == [b] + [EXPORT_LINE, CONFIG_LINE];
  }

  lemma ParseRendered(s: Stub)
    requires PlainUuid(s.bootUuid) && PlainDir(s.grubDir)
    ensures ParseLines(RenderLines(s)) == Ok(s.(btrfsRelative := s.btrfsRelative || SaysRelative(s.grubDir)))
  {
    var a, b := SearchLine(s.bootUuid), PrefixLine(s.grubDir);
    SearchLineParts(s.bootUuid);
    PrefixLineParts(s.grubDir);
    RelativeLineParts();
    ContractLines(a, b, s);
    var lines := [a, b, EXPORT_LINE, CONFIG_LINE];
    FirstWithCons(RELATIVE_LINE, lines, UUID_FLAG);
    FirstWithCons(RELATIVE_LINE, lines, PREFIX);
    AnySaysCons(RELATIVE_LINE, lines);
    assert RenderLines(s) == if s.btrfsRelative then [RELATIVE_LINE] + lines else lines;
  }

  /**
   The round trip, exactly: for a hex-and-dash UUID and a one-line directory without ')' and without
   whitespace at its ends, the rendered stub parses back to itself if and only if it is btrfs-relative or its directory
   does not itself say so.
   */
  lemma RoundTripExact(s: Stub)
    requires PlainUuid(s.bootUuid) && PlainDir(s.grubDir)
    ensures Parse(Render(s)) == Ok(s) <==> s.btrfsRelative || !SaysRelative(s.grubDir)
  {
    RenderedLinesAreClean(s);
    LinesOfJoined(RenderLines(s));
    ParseRendered(s);
  }

  /** A directory that holds both words that mark a btrfs-relative stub. */
  const MISLEADING_DIR := "/" + RELATIVE + ("=" + YES)

  lemma MisleadingDirSays()
    ensures SaysRelative(MISLEADING_DIR)
  {
    HoldsMiddle("/", RELATIVE, "=" + YES);
    HoldsMiddle("/" + RELATIVE + "=", YES, "");
    assert MISLEADING_DIR == "/" + RELATIVE + "=" + YES + "";
  }

  lemma MisleadingDirIsPlain()
    ensures PlainDir(MISLEADING_DIR)
  {
    assert ')' !in RELATIVE && OneLine(RELATIVE);
    assert ')' !in "=" + YES && OneLine("=" + YES);
    assert MISLEADING_DIR[0] == '/' && MISLEADING_DIR[|MISLEADING_DIR| - 1] == 's';
  }

  /**
   With it the round trip fails, for every UUID. The migration never renders such a stub: its stub
   is btrfs-relative.
   */
  lemma MisleadingDirFails(uuid: string)
    requires PlainUuid(uuid)
    ensures PlainDir(MISLEADING_DIR)
    ensures Parse(Render(Stub(uuid, MISLEADING_DIR, false))) != Ok(Stub(uuid, MISLEADING_DIR, false))
  {
    MisleadingDirSays();
    MisleadingDirIsPlain();
    RoundTripExact(Stub(uuid, MISLEADING_DIR, false));
  }

  // --- step 9 of the migration ---

  datatype EspError = OldUnreadable(e: StubError) | NewUnreadable(e: StubError) | UuidDiffers

  const NEW_GRUB_DIR := "/boot/grub2"

  /** The new ESP text, after the tool's own check of it; the old text must have parsed. */
  function NewEsp(existing: string, newUuid: string): Result<string, EspError> {
    match Parse(existing)
    case Err(e) => Err(OldUnreadable(e))
    case Ok(_) =>
      var text := Render(Stub(newUuid, NEW_GRUB_DIR, true));
      match Parse(text)
      case Err(e) => Err(NewUnreadable(e))
      case Ok(verified) => if verified.bootUuid != newUuid then Err(UuidDiffers) else Ok(text)
  }

  /** With a hex-and-dash UUID the check never refuses, and the text means the btrfs layout. */
  lemma NewEspMeansBtrfs(existing: string, newUuid: string)
    requires PlainUuid(newUuid)
    ensures NewEsp(existing, newUuid).Ok? <==> Parse(existing).Ok?
    ensures NewEsp(existing, newUuid).Ok? ==>
      NewEsp(existing, newUuid).value == Render(Stub(newUuid, NEW_GRUB_DIR, true))
      && Parse(NewEsp(existing, newUuid).value) == Ok(Stub(newUuid, NEW_GRUB_DIR, true))
  {
    RoundTripExact(Stub(newUuid, NEW_GRUB_DIR, true));
  }
}
