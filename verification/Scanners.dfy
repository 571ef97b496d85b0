/**
 The byte scanners: mount options, kernel command line, BLS fields.
 A scanner walks an index over the text; its contract is a function on the text split
 into fields, tokens or lines, so every loop is tied to a definition that has no index.
 */
module Scanners {
  import opened Wrappers
  import opened Text

  /** A place in a text. */
  datatype Range = Range(start: nat, end: nat)

  // --- specifications ---

  /** What is left of the first field that starts with prefix. */
  function FirstWithPrefix(fields: seq<string>, prefix: string): Option<string> {
    if fields == [] then None
    else if prefix <= fields[0] then Some(fields[0][|prefix|..])
    else FirstWithPrefix(fields[1..], prefix)
  }

  /** Value of a key in comma-separated mount options. */
  function MountOption(options: string, key: string): Option<string> {
    if key == "" then None else FirstWithPrefix(Split(options, ','), key + "=")
  }

  /** What is left, if anything, of the first token that starts with prefix. */
  function FirstLonger(tokens: seq<string>, prefix: string): Option<string> {
    if tokens == [] then None
    else if prefix <= tokens[0] && |prefix| < |tokens[0]| then Some(tokens[0][|prefix|..])
    else FirstLonger(tokens[1..], prefix)
  }

  const ROOT_PREFIX := "root=UUID="

  /** The root file system UUID of a kernel command line. */
  function RootUuid(options: string): Option<string> {
    FirstLonger(Words(options, Blank), ROOT_PREFIX)
  }

  /** The value of key on one BLS line. */
  function FieldOf(line: string, key: string): Option<string> {
    var i := SkipFrom(line, 0, Blank);
    if KeyAt(line, key, i) then
      var j := SkipFrom(line, i + |key| + 1, Blank);
      Some(line[j..BackTo(line, j, |line|, BlankOrCr)])
    else None
  }

  /** The text at position i is not a comment and holds the key and a blank. */
  predicate KeyAt(text: string, key: string, i: nat) {
    key != "" && i + |key| < |text|
    && text[i] != '#' && Matches(text, key, i) && IsBlank(text[i + |key|])
  }

  function FieldOfKey(key: string): string -> Option<string> {
    line => FieldOf(line, key)
  }

  /** All values of key, line by line. */
  function FieldValues(content: string, key: string): seq<string> {
    FilterMap(FieldOfKey(key), RawLines(content))
  }

  // --- what the specifications mean ---

  /** Field i is prefix + v and no earlier field starts with prefix. */
  ghost predicate FirstAt(fields: seq<string>, prefix: string, i: nat, v: string) {
    i < |fields| && fields[i] == prefix + v && forall j :: 0 <= j < i ==> !(prefix <= fields[j])
  }

  /** Both directions for the option scanner: the first matching field, and only it. */
  lemma {:induction false} FirstWithPrefixExact(fields: seq<string>, prefix: string, v: string)
    ensures FirstWithPrefix(fields, prefix) == Some(v) <==> exists i: nat :: FirstAt(fields, prefix, i, v)
    ensures FirstWithPrefix(fields, prefix) == None
       <==> forall i :: 0 <= i < |fields| ==> !(prefix <= fields[i])
  {
    if fields != [] {
      var rest := fields[1..];
      FirstWithPrefixExact(rest, prefix, v);
      if prefix <= fields[0] {
        assert fields[0] == prefix + fields[0][|prefix|..];
        assert fields[0] == prefix + v ==> fields[0][|prefix|..] == v;
        assert FirstWithPrefix(fields, prefix) == Some(v) ==> FirstAt(fields, prefix, 0, v);
      } else {
        forall i: nat | FirstAt(rest, prefix, i, v)
          ensures FirstAt(fields, prefix, i + 1, v)
        {
          assert fields[i + 1] == rest[i];
          assert forall j :: 1 <= j < i + 1 ==> fields[j] == rest[j - 1];
        }
        forall i: nat | FirstAt(fields, prefix, i, v)
          ensures i > 0 && FirstAt(rest, prefix, i - 1, v)
        {
          assert prefix <= fields[i];
        }
      }
    }
  }

  /** Token i is prefix + v with v non-empty, and no earlier token extends prefix. */
  ghost predicate FirstLongerAt(tokens: seq<string>, prefix: string, i: nat, v: string) {
    i < |tokens| && v != "" && tokens[i] == prefix + v && forall j :: 0 <= j < i ==> !(prefix < tokens[j])
  }

  lemma {:induction false} FirstLongerExact(tokens: seq<string>, prefix: string, v: string)
    ensures FirstLonger(tokens, prefix) == Some(v) <==> exists i: nat :: FirstLongerAt(tokens, prefix, i, v)
    ensures FirstLonger(tokens, prefix) == None
       <==> forall i :: 0 <= i < |tokens| ==> !(prefix < tokens[i])
  {
    if tokens != [] {
      var rest := tokens[1..];
      FirstLongerExact(rest, prefix, v);
      if prefix < tokens[0] {
        assert tokens[0] == prefix + tokens[0][|prefix|..];
        assert tokens[0] == prefix + v ==> tokens[0][|prefix|..] == v;
        assert FirstLonger(tokens, prefix) == Some(v) ==> FirstLongerAt(tokens, prefix, 0, v);
      } else {
        forall i: nat | FirstLongerAt(rest, prefix, i, v)
          ensures FirstLongerAt(tokens, prefix, i + 1, v)
        {
          assert tokens[i + 1] == rest[i];
          assert forall j :: 1 <= j < i + 1 ==> tokens[j] == rest[j - 1];
        }
        forall i: nat | FirstLongerAt(tokens, prefix, i, v)
          ensures i > 0 && FirstLongerAt(rest, prefix, i - 1, v)
        {
          assert prefix < tokens[i];
        }
      }
    }
  }

  /** A key that holds the separator never matches: "subvol" cannot be confused with "a,subvol". */
  lemma KeyWithCommaFindsNothing(options: string, key: string)
    requires ',' in key
    ensures MountOption(options, key) == None
  {
    var fields := Split(options, ',');
    JoinSplit(options, ',');
    forall i | 0 <= i < |fields|
      ensures !(key + "=" <= fields[i])
    {
      var k :| 0 <= k < |key| && key[k] == ',';
      assert (key + "=")[k] == ',';
      assert ',' !in fields[i];
      assert k < |fields[i]| ==> fields[i][k] != ',';
    }
    FirstWithPrefixExact(fields, key + "=", "");
  }

  /**
   The line is blanks, the key at i, one or more blanks, line[j..e], then blanks or '\r';
   line[j..e] has no such characters at its ends, and the line is not a comment.
   */
  ghost predicate FieldShape(line: string, key: string, i: nat, j: nat, e: nat) {
    && i + |key| < j <= |line|
    && AllIn(line, 0, i, Blank) && !IsBlank(line[i]) && line[i] != '#'
    && line[i..i + |key|] == key
    && Core(line, i + |key|, j, e, Blank, BlankOrCr)
  }

  /** Exactness of the BLS field scanner on one line, both directions. */
  lemma FieldOfExact(line: string, key: string, v: string)
    requires key != ""
    ensures FieldOf(line, key) == Some(v)
       <==> exists i: nat, j: nat, e: nat :: FieldShape(line, key, i, j, e) && v == line[j..e]
  {
    if FieldOf(line, key) == Some(v) {
      var i := SkipFrom(line, 0, Blank);
      var j := SkipFrom(line, i + |key| + 1, Blank);
      assert FieldShape(line, key, i, j, BackTo(line, j, |line|, BlankOrCr));
    }
    forall i: nat, j: nat, e: nat | FieldShape(line, key, i, j, e)
      ensures FieldOf(line, key) == Some(line[j..e])
    {
      ShapeIsField(line, key, i, j, e);
    }
  }

  lemma ShapeIsField(line: string, key: string, i: nat, j: nat, e: nat)
    requires key != "" && FieldShape(line, key, i, j, e)
    ensures FieldOf(line, key) == Some(line[j..e])
  {
  }

  // --- scanners ---

  method MatchAt(haystack: string, needle: string, pos: nat) returns (result: bool)
    ensures result <==> Matches(haystack, needle, pos)
  {
    if pos + |needle| > |haystack| {
      return false;
    }
    var i := 0;
    while i < |needle|
      invariant 0 <= i <= |needle|
      invariant needle[..i] == haystack[pos..pos + i]
    {
      if haystack[pos + i] != needle[i] {
        assert haystack[pos..pos + |needle|][i] != needle[i];
        return false;
      }
      i := i + 1;
    }
    return true;
  }

  /** The field from i to end begins with the key and '='. */
  predicate OptionHere(options: string, key: string, i: nat, end: nat)
    requires end <= |options|
  {
    Matches(options, key, i) && i + |key| + 1 <= end && options[i + |key|] == '='
  }

  /** The option value that the text from i on gives, field by field. */
  ghost function OptionFrom(options: string, key: string, i: nat): Option<string>
    requires i <= |options|
    decreases |options| - i
  {
    var end := IndexFrom(options, ',', i);
    if OptionHere(options, key, i, end) then
      Some(options[i + |key| + 1..end])
    else if end < |options| then OptionFrom(options, key, end + 1)
    else None
  }

  lemma OptionStep(options: string, key: string, i: nat, end: nat)
    requires i <= |options| && IndexFrom(options, ',', i) == end
    ensures OptionFrom(options, key, i)
         == if OptionHere(options, key, i, end) then Some(options[i + |key| + 1..end])
            else if end < |options| then OptionFrom(options, key, end + 1)
            else None
  {
  }

  lemma SameRecurrence<T>(
    here: bool, v: Option<T>, more: bool, a: Option<T>, b: Option<T>, aNext: Option<T>, bNext: Option<T>)
    requires a == if here then v else if more then aNext else None
    requires b == if here then v else if more then bNext else None
    requires more ==> aNext == bNext
    ensures a == b
  {
  }

  lemma {:induction false} OptionFromIsFirst(options: string, key: string, i: nat)
    requires i <= |options|
    ensures OptionFrom(options, key, i) == FirstWithPrefix(Split(options[i..], ','), key + "=")
    decreases |options| - i
  {
    var end := IndexFrom(options, ',', i);
    var here := OptionHere(options, key, i, end);
    var v := if here then Some(options[i + |key| + 1..end]) else None;
    OptionStep(options, key, i, end);
    FirstFieldDecides(options, key, i, end);
    if end < |options| {
      OptionFromIsFirst(options, key, end + 1);
      SameRecurrence(here, v, true, OptionFrom(options, key, i), FirstWithPrefix(Split(options[i..], ','), key + "="),
                     OptionFrom(options, key, end + 1), FirstWithPrefix(Split(options[end + 1..], ','), key + "="));
    }
  }

  lemma FirstFieldDecides(options: string, key: string, i: nat, end: nat)
    requires i <= |options| && IndexFrom(options, ',', i) == end
    ensures FirstWithPrefix(Split(options[i..], ','), key + "=")
         == if OptionHere(options, key, i, end) then Some(options[i + |key| + 1..end])
            else if end < |options| then FirstWithPrefix(Split(options[end + 1..], ','), key + "=")
            else None
  {
    var field := options[i..end];
    PrefixOfField(options, key, i, end);
    SplitAtFirst(options, i, end);
    FirstWithPrefixCons(field, if end < |options| then Split(options[end + 1..], ',') else [], key + "=");
  }

  lemma SplitAtFirst(options: string, i: nat, end: nat)
    requires i <= |options| && IndexFrom(options, ',', i) == end
    ensures Split(options[i..], ',')
         == [options[i..end]] + if end < |options| then Split(options[end + 1..], ',') else []
  {
    var field := options[i..end];
    if end < |options| {
      assert options[i..] == field + [','] + options[end + 1..];
      SplitHead(field, ',', options[end + 1..]);
    } else {
      assert options[i..] == field;
      SplitOne(field, ',');
    }
  }

  lemma FirstWithPrefixCons(field: string, fields: seq<string>, prefix: string)
    ensures FirstWithPrefix([field] + fields, prefix)
         == if prefix <= field then Some(field[|prefix|..]) else FirstWithPrefix(fields, prefix)
  {
  }

  lemma PrefixOfField(options: string, key: string, start: nat, end: nat)
    requires start <= end <= |options|
    ensures key + "=" <= options[start..end]
       <==> OptionHere(options, key, start, end)
    ensures key + "=" <= options[start..end]
        ==> options[start..end][|key + "="|..] == options[start + |key| + 1..end]
  {
    var field := options[start..end];
    if start + |key| + 1 <= end {
      assert field[..|key|] == options[start..start + |key|];
      assert field[|key|] == options[start + |key|];
      assert field[..|key| + 1] == field[..|key|] + [field[|key|]];
    }
  }

  method EndOfOption(options: string, i: nat) returns (optionEnd: nat, foundComma: bool)
    requires i <= |options|
    ensures optionEnd == IndexFrom(options, ',', i) && (foundComma <==> optionEnd < |options|)
  {
    foundComma := false;
    optionEnd := i;
    while optionEnd < |options| && !foundComma
      invariant i <= optionEnd <= |options|
      invariant IndexFrom(options, ',', i) == IndexFrom(options, ',', optionEnd)
      invariant foundComma ==> optionEnd < |options| && options[optionEnd] == ','
      decreases |options| - optionEnd, !foundComma
    {
      if options[optionEnd] == ',' {
        foundComma := true;
      } else {
        optionEnd := optionEnd + 1;
      }
    }
  }

  /** The nested tests on one field. */
  method TestOption(options: string, key: string, optionStart: nat, optionEnd: nat) returns (found: bool)
    requires optionEnd <= |options|
    ensures found <==> OptionHere(options, key, optionStart, optionEnd)
  {
    var matched := MatchAt(options, key, optionStart);
    if matched {
      var afterKey := optionStart + |key|;
      if afterKey < |options| {
        if options[afterKey] == '=' {
          return afterKey + 1 <= optionEnd;
        }
      }
    }
    return false;
  }

  ghost predicate FieldStart(options: string, p: nat) {
    p <= |options| && (p == 0 || options[p - 1] == ',')
  }

  /** The field that starts at p is the first one that begins with the key and '=', and r is its value. */
  ghost predicate FirstOptionAt(options: string, key: string, p: nat, r: Range) {
    && FieldStart(options, p) && OptionHere(options, key, p, IndexFrom(options, ',', p))
    && r == Range(p + |key| + 1, IndexFrom(options, ',', p))
    && NoOptionBefore(options, key, p)
  }

  ghost predicate NoOptionBefore(options: string, key: string, p: nat) {
    forall q: nat :: q < p && FieldStart(options, q) ==> !OptionHere(options, key, q, IndexFrom(options, ',', q))
  }

  lemma NoOptionUpTo(options: string, key: string, i: nat, end: nat)
    requires i <= |options| && FieldStart(options, i) && IndexFrom(options, ',', i) == end
    requires NoOptionBefore(options, key, i) && !OptionHere(options, key, i, end)
    ensures NoOptionBefore(options, key, if end < |options| then end + 1 else end)
    ensures end < |options| ==> FieldStart(options, end + 1)
  {
  }

  method ScanOptions(options: string, key: string) returns (result: Option<Range>)
    ensures result.None? ==> OptionFrom(options, key, 0) == None
    ensures result.Some? ==>
      && result.value.start <= result.value.end <= |options|
      && OptionFrom(options, key, 0) == Some(options[result.value.start..result.value.end])
    ensures result.Some? ==> exists p: nat :: FirstOptionAt(options, key, p, result.value)
  {
    var i := 0;
    ghost var value := OptionFrom(options, key, 0);
    while i < |options|
      invariant 0 <= i <= |options|
      invariant value == OptionFrom(options, key, i)
      invariant i < |options| ==> FieldStart(options, i)
      invariant NoOptionBefore(options, key, i)
    {
      var optionEnd, foundComma := EndOfOption(options, i);
      var found := TestOption(options, key, i, optionEnd);
      OptionStep(options, key, i, optionEnd);
      if found {
        assert FirstOptionAt(options, key, i, Range(i + |key| + 1, optionEnd));
        return Some(Range(i + |key| + 1, optionEnd));
      }
      NoOptionUpTo(options, key, i, optionEnd);
      if foundComma {
        i := optionEnd + 1;
      } else {
        i := optionEnd;
      }
    }
    OptionStep(options, key, i, i);
    return None;
  }

  method FindOption(options: string, key: string) returns (result: Option<Range>)
    ensures result.None? ==> MountOption(options, key) == None
    ensures result.Some? ==>
      && result.value.start <= result.value.end <= |options|
      && MountOption(options, key) == Some(options[result.value.start..result.value.end])
    ensures result.Some? ==> exists p: nat :: FirstOptionAt(options, key, p, result.value)
  {
    if |key| == 0 {
      return None;
    }
    OptionFromIsFirst(options, key, 0);
    assert options[0..] == options;
    result := ScanOptions(options, key);
  }

  /** The token value that the text from i on would give. */
  ghost function TokenFrom(options: string, prefix: string, i: nat): Option<string>
    requires i <= |options|
  {
    FirstLonger(Words(options[i..], Blank), prefix)
  }

  /** The token options[i..end], possibly empty, decides, or the text after it does. */
  lemma TokenStep(options: string, prefix: string, i: nat, end: nat)
    requires i <= end <= |options| && prefix != ""
    requires forall k :: i <= k < end ==> !IsBlank(options[k])
    requires end == |options| || IsBlank(options[end])
    ensures TokenFrom(options, prefix, i)
         == if Matches(options, prefix, i) && i + |prefix| < end then Some(options[i + |prefix|..end])
            else TokenFrom(options, prefix, end)
  {
    var token, rest := options[i..end], options[end..];
    if token != "" {
      WordsHead(token, rest, Blank);
      assert options[i..] == token + rest;
      assert ([token] + Words(rest, Blank))[1..] == Words(rest, Blank);
      if i + |prefix| < end {
        assert options[i..i + |prefix|] == token[..|prefix|];
        assert token[|prefix|..] == options[i + |prefix|..end];
      }
    }
  }

  lemma TokenSkipBlank(options: string, prefix: string, i: nat)
    requires i < |options| && IsBlank(options[i])
    ensures TokenFrom(options, prefix, i) == TokenFrom(options, prefix, i + 1)
  {
  }

  ghost predicate TokenStart(options: string, p: nat) {
    p < |options| && !IsBlank(options[p]) && (p == 0 || IsBlank(options[p - 1]))
  }

  /** The token that starts at p goes on after the prefix. */
  predicate TokenHere(options: string, prefix: string, p: nat)
    requires p <= |options|
  {
    Matches(options, prefix, p) && p + |prefix| < WordEnd(options, p, Blank)
  }

  /** The token that starts at p is the first one that goes on after the prefix, and r is its rest. */
  ghost predicate FirstTokenAt(options: string, prefix: string, p: nat, r: Range) {
    && TokenStart(options, p) && TokenHere(options, prefix, p)
    && r == Range(p + |prefix|, WordEnd(options, p, Blank))
    && NoTokenBefore(options, prefix, p)
  }

  ghost predicate NoTokenBefore(options: string, prefix: string, p: nat) {
    forall q: nat :: q < p && TokenStart(options, q) ==> !TokenHere(options, prefix, q)
  }

  method EndOfToken(options: string, i: nat) returns (tokenEnd: nat)
    requires i <= |options|
    ensures i <= tokenEnd <= |options| && tokenEnd == WordEnd(options, i, Blank)
  {
    tokenEnd := i;
    while tokenEnd < |options| && options[tokenEnd] != ' ' && options[tokenEnd] != '\t'
      invariant i <= tokenEnd <= |options|
      invariant forall k :: i <= k < tokenEnd ==> !IsBlank(options[k])
    {
      tokenEnd := tokenEnd + 1;
    }
    WordEndIs(options, i, Blank, tokenEnd);
  }

  lemma {:induction false} SkipToken(options: string, prefix: string, i: nat, j: nat)
    requires i <= j <= |options| && forall k :: i <= k < j ==> IsBlank(options[k])
    ensures TokenFrom(options, prefix, i) == TokenFrom(options, prefix, j)
    decreases j - i
  {
    if i < j {
      TokenSkipBlank(options, prefix, i);
      SkipToken(options, prefix, i + 1, j);
    }
  }

  lemma NoTokenUpTo(options: string, prefix: string, i: nat, end: nat, next: nat)
    requires i <= end <= next <= |options| && end == WordEnd(options, i, Blank)
    requires forall k :: end <= k < next ==> IsBlank(options[k])
    requires NoTokenBefore(options, prefix, i) && (TokenStart(options, i) ==> !TokenHere(options, prefix, i))
    ensures NoTokenBefore(options, prefix, next)
  {
  }

  method FindRootUuid(options: string, prefix: string) returns (result: Option<Range>)
    requires |prefix| > 0
    ensures result.None? ==> FirstLonger(Words(options, Blank), prefix) == None
    ensures result.Some? ==>
      && |prefix| <= result.value.start <= result.value.end <= |options|
      && FirstLonger(Words(options, Blank), prefix) == Some(options[result.value.start..result.value.end])
    ensures result.Some? ==> exists p: nat :: FirstTokenAt(options, prefix, p, result.value)
  {
    var i := 0;
    assert options[0..] == options;
    while i < |options|
      invariant 0 <= i <= |options|
      invariant TokenFrom(options, prefix, 0) == TokenFrom(options, prefix, i)
      invariant 0 < i < |options| ==> IsBlank(options[i - 1])
      invariant NoTokenBefore(options, prefix, i)
    {
      var tokenStart := i;
      var tokenEnd := EndOfToken(options, i);
      TokenStep(options, prefix, i, tokenEnd);

      var matched := MatchAt(options, prefix, tokenStart);
      if matched {
        var valStart := tokenStart + |prefix|;
        if valStart < tokenEnd {
          assert FirstTokenAt(options, prefix, tokenStart, Range(valStart, tokenEnd));
          return Some(Range(valStart, tokenEnd));
        }
      }

      i := SkipBlanks(options, tokenEnd, |options|);
      SkipToken(options, prefix, tokenEnd, i);
      NoTokenUpTo(options, prefix, tokenStart, tokenEnd, i);
      if i == tokenStart {
        i := i + 1;
      }
    }
    assert options[i..] == "";
    return None;
  }

  /** Start of the line after the one that position p is on, or the end of the content. */
  function NextLine(content: string, p: nat): (n: nat)
    requires p <= |content|
    ensures p <= n <= |content|
  {
    var k := IndexFrom(content, '\n', p);
    if k < |content| then k + 1 else |content|
  }

  ghost predicate LineAt(content: string, i: nat, end: nat) {
    i <= end <= |content|
    && (forall k :: i <= k < end ==> content[k] != '\n')
    && (end == |content| || content[end] == '\n')
  }

  /**
   Where the value of key is on the line content[i..end]. A key with a line break can match beyond
   the line; its value is empty.
   */
  ghost function FieldRange(content: string, key: string, i: nat, end: nat): (r: Option<Range>)
    requires LineAt(content, i, end)
    ensures r.Some? ==> i < r.value.start <= r.value.end <= |content|
    ensures r.Some? && '\n' !in key ==> r.value.end <= end
  {
    var s := SkipFrom(content, i, Blank);
    if !KeyAt(content, key, s) then None
    else if s + |key| < end then
      var v := SkipFrom(content, s + |key| + 1, Blank);
      assert end < |content| ==> !IsBlank(content[end]);
      Some(Range(v, BackTo(content, v, end, BlankOrCr)))
    else Some(Range(s + |key| + 1, s + |key| + 1))
  }

  /** Where all the values of key are, from i on. */
  ghost function RangesFrom(content: string, key: string, i: nat): (r: seq<Range>)
    requires i <= |content|
    ensures forall x :: x in r ==> x.start <= x.end <= |content|
    decreases |content| - i
  {
    if i == |content| then []
    else
      match FieldRange(content, key, i, IndexFrom(content, '\n', i))
      case Some(r) => [r] + RangesFrom(content, key, NextLine(content, r.end))
      case None => RangesFrom(content, key, NextLine(content, i))
  }

  /** The texts at the given places. */
  ghost function Slices(content: string, ranges: seq<Range>): seq<string>
    requires forall x :: x in ranges ==> x.start <= x.end <= |content|
  {
    if ranges == [] then [] else [content[ranges[0].start..ranges[0].end]] + Slices(content, ranges[1..])
  }

  lemma SlicesCons(content: string, r: Range, rest: seq<Range>)
    requires r.start <= r.end <= |content| && forall x :: x in rest ==> x.start <= x.end <= |content|
    ensures forall x :: x in [r] + rest ==> x.start <= x.end <= |content|
    ensures Slices(content, [r] + rest) == [content[r.start..r.end]] + Slices(content, rest)
  {
  }

  /** The place found on a line holds the value that the line has. */
  lemma RangeIsField(content: string, key: string, i: nat, end: nat)
    requires LineAt(content, i, end) && i < |content| && '\n' !in key
    ensures FieldOf(content[i..end], key)
         == match FieldRange(content, key, i, end) case Some(r) => Some(content[r.start..r.end]) case None => None
  {
    var s := SkipFrom(content, i, Blank);
    assert s <= end by {
      assert end < |content| ==> !IsBlank(content[end]);
    }
    if KeyAt(content, key, s) {
      KeyOnLine(content, key, s, end);
    }
    match FieldRange(content, key, i, end)
    case Some(r) => FieldOnLine(content, key, i, s, r.start, r.end, end);
    case None => NoFieldOnLine(content, key, i, s, end);
  }

  lemma NoFieldOnLine(content: string, key: string, i: nat, start: nat, end: nat)
    requires i <= start <= end <= |content|
    requires AllIn(content, i, start, Blank) && (start == |content| || !IsBlank(content[start]))
    requires !(KeyAt(content, key, start) && start + |key| < end)
    ensures FieldOf(content[i..end], key) == None
  {
    var line := content[i..end];
    SkipFromIs(line, 0, Blank, start - i);
    if start + |key| < end {
      SliceSlice(content, i, end, start, start + |key|);
    }
  }

  /** The field of the line content[i..end], by its bounds in the content. */
  lemma FieldOnLine(content: string, key: string, i: nat, start: nat, valStart: nat, valEnd: nat, end: nat)
    requires i <= start && start + |key| < valStart <= valEnd <= end <= |content|
    requires AllIn(content, i, start, Blank) && !IsBlank(content[start]) && KeyAt(content, key, start)
    requires AllIn(content, start + |key| + 1, valStart, Blank) && (valStart == end || !IsBlank(content[valStart]))
    requires AllIn(content, valEnd, end, BlankOrCr) && (valEnd == valStart || !In(content[valEnd - 1], BlankOrCr))
    ensures FieldOf(content[i..end], key) == Some(content[valStart..valEnd])
  {
    SliceSlice(content, i, end, start, start + |key|);
    assert FieldShape(content[i..end], key, start - i, valStart - i, valEnd - i);
    ShapeIsField(content[i..end], key, start - i, valStart - i, valEnd - i);
    SliceSlice(content, i, end, valStart, valEnd);
  }

  /** The places found in the content hold the values that the specification reads line by line. */
  lemma {:induction false} RangesAreValues(content: string, key: string, i: nat)
    requires i <= |content| && '\n' !in key
    ensures Slices(content, RangesFrom(content, key, i)) == FieldValues(content[i..], key)
    decreases |content| - i
  {
    if i == |content| {
      assert content[i..] == "";
    } else {
      var end := IndexFrom(content, '\n', i);
      var next := if end < |content| then end + 1 else end;
      RangesAreValues(content, key, next);
      RangesStep(content, key, i, end);
      RangeIsField(content, key, i, end);
      FirstLine(content, key, i, end);
      match FieldRange(content, key, i, end)
      case Some(r) => SlicesCons(content, r, RangesFrom(content, key, next));
      case None =>
    }
  }

  lemma FirstLine(content: string, key: string, i: nat, end: nat)
    requires LineAt(content, i, end) && i < |content|
    ensures FieldValues(content[i..], key)
         == Optional(FieldOf(content[i..end], key))
            + FieldValues(content[if end < |content| then end + 1 else end..], key)
  {
    var line := content[i..end];
    if end < |content| {
      var rest := content[end + 1..];
      assert content[i..] == line + "\n" + rest;
      LinesHead(line, rest);
      FilterMapCons(FieldOfKey(key), line, RawLines(rest));
    } else {
      assert content[i..] == line;
      LinesOne(line);
      FilterMapCons(FieldOfKey(key), line, []);
      assert [line] + [] == [line];
      assert content[end..] == "";
    }
  }

  /** Reading from a line start: that line's place, then the rest. */
  lemma RangesStep(content: string, key: string, i: nat, end: nat)
    requires LineAt(content, i, end) && i < |content| && '\n' !in key
    ensures var rest := RangesFrom(content, key, if end < |content| then end + 1 else end);
      RangesFrom(content, key, i)
        == match FieldRange(content, key, i, end) case Some(r) => [r] + rest case None => rest
  {
    assert IndexFrom(content, '\n', i) == end;
    NextLineIs(content, i, end);
    match FieldRange(content, key, i, end)
    case Some(r) => NextLineIs(content, r.end, end);
    case None =>
  }

  /** A key without a line break stays on the line. */
  lemma KeyOnLine(content: string, key: string, start: nat, end: nat)
    requires start <= end <= |content| && (end == |content| || content[end] == '\n')
    requires '\n' !in key && KeyAt(content, key, start)
    ensures start + |key| < end
  {
  }

  /** First position from i on, at most end, that does not hold a blank. */
  method SkipBlanks(content: string, from: nat, end: nat) returns (i: nat)
    requires from <= end <= |content|
    ensures from <= i <= end
    ensures AllIn(content, from, i, Blank) && (i < end ==> !IsBlank(content[i]))
  {
    i := from;
    while i < end && (content[i] == ' ' || content[i] == '\t')
      invariant from <= i <= end
      invariant AllIn(content, from, i, Blank)
    {
      i := i + 1;
    }
  }

  /** Moves end back over trailing blanks and '\r'. */
  method TrimBack(content: string, start: nat, end: nat) returns (e: nat)
    requires start <= end <= |content|
    ensures e == BackTo(content, start, end, BlankOrCr)
  {
    e := end;
    while e > start && (content[e - 1] == ' ' || content[e - 1] == '\t' || content[e - 1] == '\r')
      invariant start <= e <= end
      invariant AllIn(content, e, end, BlankOrCr)
    {
      e := e - 1;
    }
    BackToIs(content, start, end, BlankOrCr, e);
  }

  /** The tests for a key at the start of a line body. */
  method TestKey(content: string, key: string, contentStart: nat) returns (found: bool)
    requires contentStart < |content| && key != ""
    ensures found <==> KeyAt(content, key, contentStart)
  {
    if content[contentStart] != '#' {
      var matched := MatchAt(content, key, contentStart);
      if matched {
        var afterKey := contentStart + |key|;
        if afterKey < |content| {
          return content[afterKey] == ' ' || content[afterKey] == '\t';
        }
      }
    }
    return false;
  }

  /** The trimmed value between the blank after the key and the end of the line. */
  method TrimValue(content: string, afterKey: nat, lineEnd: nat) returns (valStart: nat, valEnd: nat)
    requires afterKey < |content| && lineEnd <= |content|
    ensures afterKey < valStart <= valEnd <= |content|
    ensures afterKey < lineEnd && (lineEnd == |content| || content[lineEnd] == '\n') ==>
      valStart == SkipFrom(content, afterKey + 1, Blank) && valStart <= lineEnd
      && valEnd == BackTo(content, valStart, lineEnd, BlankOrCr)
    ensures afterKey >= lineEnd ==> valStart == afterKey + 1 == valEnd
  {
    valStart := afterKey + 1;
    if valStart < lineEnd {
      valStart := SkipBlanks(content, valStart, lineEnd);
    }
    if afterKey < lineEnd && (lineEnd == |content| || content[lineEnd] == '\n') {
      SkipFromIs(content, afterKey + 1, Blank, valStart);
    }
    valEnd := if valStart <= lineEnd then lineEnd else valStart;
    valEnd := TrimBack(content, valStart, valEnd);
  }

  /** End of the line that position i is on. */
  method EndOfLine(content: string, i: nat) returns (lineEnd: nat)
    requires i <= |content|
    ensures LineAt(content, i, lineEnd)
  {
    lineEnd := i;
    while lineEnd < |content| && content[lineEnd] != '\n'
      invariant i <= lineEnd <= |content|
      invariant forall k :: i <= k < lineEnd ==> content[k] != '\n'
    {
      lineEnd := lineEnd + 1;
    }
  }

  /** A line without the key drops out of the places that remain. */
  lemma LineWithoutKey(content: string, key: string, i: nat, start: nat, end: nat)
    requires i <= start <= end && i < |content| && LineAt(content, start, end)
    requires AllIn(content, i, start, Blank) && (start == |content| || !IsBlank(content[start]))
    requires !KeyAt(content, key, start)
    ensures RangesFrom(content, key, i) == RangesFrom(content, key, if end < |content| then end + 1 else end)
  {
    SkipFromIs(content, i, Blank, start);
    assert LineAt(content, i, end);
    assert IndexFrom(content, '\n', i) == end;
    NextLineIs(content, i, end);
  }

  /** What trimming the value finds is the place on the line. */
  lemma TrimmedIsPlace(content: string, key: string, i: nat, start: nat, end: nat, v: nat, e: nat)
    requires LineAt(content, i, end) && start == SkipFrom(content, i, Blank) && KeyAt(content, key, start)
    requires start + |key| < end ==>
      v == SkipFrom(content, start + |key| + 1, Blank) && v <= end && e == BackTo(content, v, end, BlankOrCr)
    requires start + |key| >= end ==> v == start + |key| + 1 == e
    ensures FieldRange(content, key, i, end) == Some(Range(v, e))
  {
  }

  /** A line with the key heads the places with the place of its value. */
  lemma LineWithKey(content: string, key: string, i: nat, start: nat, end: nat, v: nat, e: nat)
    requires i < |content| && i <= start <= end && LineAt(content, start, end)
    requires AllIn(content, i, start, Blank) && KeyAt(content, key, start) && !IsBlank(content[start])
    requires start + |key| < end ==>
      v == SkipFrom(content, start + |key| + 1, Blank) && v <= end && e == BackTo(content, v, end, BlankOrCr)
    requires start + |key| >= end ==> v == start + |key| + 1 == e
    ensures v <= e <= |content|
    ensures RangesFrom(content, key, i) == [Range(v, e)] + RangesFrom(content, key, NextLine(content, e))
  {
    SkipFromIs(content, i, Blank, start);
    assert LineAt(content, i, end);
    assert IndexFrom(content, '\n', i) == end;
    TrimmedIsPlace(content, key, i, start, end, v, e);
  }

  /** One line: the place of the value when the key is on it, and where the next line starts. */
  method FieldHere(content: string, key: string, lineStart: nat) returns (result: Option<Range>, next: nat)
    requires lineStart < |content| && key != ""
    ensures lineStart <= next <= |content|
    ensures result.None? ==> RangesFrom(content, key, lineStart) == RangesFrom(content, key, next)
    ensures result.None? ==> lineStart < next
    ensures result.Some? ==>
      && lineStart + |key| < result.value.start <= result.value.end <= |content|
      && RangesFrom(content, key, lineStart)
        == [result.value] + RangesFrom(content, key, NextLine(content, result.value.end))
  {
    result := None;
    var i := SkipBlanks(content, lineStart, |content|);
    if i >= |content| {
      LineWithoutKey(content, key, lineStart, |content|, |content|);
      next := i;
      return;
    }
    var contentStart := i;
    var lineEnd := EndOfLine(content, i);
    next := if lineEnd < |content| then lineEnd + 1 else lineEnd;
    var found := TestKey(content, key, contentStart);
    if found {
      var valStart, valEnd := TrimValue(content, contentStart + |key|, lineEnd);
      LineWithKey(content, key, lineStart, contentStart, lineEnd, valStart, valEnd);
      result := Some(Range(valStart, valEnd));
    } else {
      LineWithoutKey(content, key, lineStart, contentStart, lineEnd);
    }
  }

  /**
   The first field with this key at or after start: the first place that remains, with the places
   after the match as the tail. The search always moves past the key.
   */
  method FindField(content: string, key: string, start: nat) returns (result: Option<Range>)
    requires start <= |content|
    ensures result.None? ==> RangesFrom(content, key, start) == []
    ensures result.Some? ==>
      && start + |key| < result.value.start <= result.value.end <= |content|
      && RangesFrom(content, key, start)
        == [result.value] + RangesFrom(content, key, NextLine(content, result.value.end))
  {
    if |key| == 0 {
      EmptyKeyFindsNothing(content, start);
      return None;
    }
    ghost var all := RangesFrom(content, key, start);
    var i := start;
    while i < |content|
      invariant start <= i <= |content|
      invariant all == RangesFrom(content, key, i)
    {
      var lineStart := i;
      result, i := FieldHere(content, key, i);
      if result.Some? {
        return;
      }
      if i <= lineStart {
        i := lineStart + 1;
      }
    }
    return None;
  }

  lemma NextLineIs(content: string, p: nat, end: nat)
    requires LineAt(content, p, end)
    ensures NextLine(content, p) == if end < |content| then end + 1 else end
  {
  }

  lemma {:induction false} EmptyKeyFindsNothing(content: string, i: nat)
    requires i <= |content|
    ensures RangesFrom(content, "", i) == []
    decreases |content| - i
  {
    if i < |content| {
      var end := IndexFrom(content, '\n', i);
      if end < |content| {
        EmptyKeyFindsNothing(content, end + 1);
      }
    }
  }

  /** All values of any key, where the scanner finds them. */
  ghost function AllValues(content: string, key: string): seq<string> {
    Slices(content, RangesFrom(content, key, 0))
  }

  /** For a key without a line break these are the values read line by line. */
  lemma AllValuesByLine(content: string, key: string)
    requires '\n' !in key
    ensures AllValues(content, key) == FieldValues(content, key)
  {
    RangesAreValues(content, key, 0);
    assert content[0..] == content;
  }

  /** For a key with one they are empty. */
  lemma {:induction false} BrokenKeyValues(content: string, key: string, i: nat)
    requires i <= |content| && '\n' in key
    ensures forall v :: v in Slices(content, RangesFrom(content, key, i)) ==> v == ""
    decreases |content| - i
  {
    if i < |content| {
      var end := IndexFrom(content, '\n', i);
      match FieldRange(content, key, i, end)
      case Some(r) =>
        BrokenKeyValues(content, key, NextLine(content, r.end));
        BrokenKeyCrosses(content, key, SkipFrom(content, i, Blank), end);
        SlicesCons(content, r, RangesFrom(content, key, NextLine(content, r.end)));
      case None => BrokenKeyValues(content, key, NextLine(content, i));
    }
  }

  lemma BrokenKeyCrosses(content: string, key: string, s: nat, end: nat)
    requires s <= end <= |content| && '\n' in key && KeyAt(content, key, s)
    requires forall k :: s <= k < end ==> content[k] != '\n'
    ensures s + |key| >= end
  {
    var k :| 0 <= k < |key| && key[k] == '\n';
    assert content[s..s + |key|][k] == content[s + k];
  }

  method BlsField(content: string, key: string) returns (result: Option<string>)
    ensures result == if AllValues(content, key) == [] then None else Some(AllValues(content, key)[0])
    ensures '\n' !in key ==> AllValues(content, key) == FieldValues(content, key)
  {
    var r := FindField(content, key, 0);
    if '\n' !in key {
      AllValuesByLine(content, key);
    }
    match r
    case None => return None;
    case Some(range) =>
      SlicesCons(content, range, RangesFrom(content, key, NextLine(content, range.end)));
      return Some(content[range.start..range.end]);
  }

  /** All values, in order, once each; terminates because each match lies beyond the last. */
  method BlsFieldAll(content: string, key: string) returns (results: seq<string>)
    ensures results == AllValues(content, key)
    ensures '\n' !in key ==> results == FieldValues(content, key)
  {
    results := [];
    ghost var rest := RangesFrom(content, key, 0);
    var pos := 0;
    while pos <= |content|
      invariant 0 <= pos <= |content| + 1
      invariant rest == RangesFrom(content, key, if pos <= |content| then pos else |content|)
      invariant AllValues(content, key) == results + Slices(content, rest)
    {
      var r := FindField(content, key, pos);
      match r
      case Some(range) =>
        var s, e := range.start, range.end;
        rest := RangesFrom(content, key, NextLine(content, e));
        SlicesCons(content, range, rest);
        ConcatAssoc(results, [content[s..e]], Slices(content, rest));
        results := results + [content[s..e]];
        if e < |content| {
          var nl := IndexFrom(content, '\n', e);
          pos := if nl < |content| then nl + 1 else |content|;
        } else {
          pos := |content| + 1;
        }
        assert NextLine(content, e) == if pos <= |content| then pos else |content|;
      case None =>
        break;
    }
    if '\n' !in key {
      AllValuesByLine(content, key);
    }
  }
}
