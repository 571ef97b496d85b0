/**
 The string operations of Rust's standard library that the tool's parsers use, on
 ASCII text: trim, lines, join, split, split_whitespace, find, contains, replace.
 The lemmas are the laws the parsers rely on.
 */
module Text {
  import opened Wrappers

  // --- character classes ---

  /** Blank: the separators of the byte scanners. Space: char::is_whitespace on ASCII. */
  datatype CharClass = Blank | BlankOrCr | Space

  predicate In(c: char, k: CharClass) {
    match k
    case Blank => c == ' ' || c == '\t'
    case BlankOrCr => c == ' ' || c == '\t' || c == '\r'
    case Space => c == ' ' || c == '\t' || c == '\n' || c == '\r' || c == '\U{0B}' || c == '\U{0C}'
  }

  predicate IsBlank(c: char) {
    In(c, Blank)
  }

  predicate IsSpace(c: char) {
    In(c, Space)
  }

  ghost predicate SpaceFree(s: string) {
    forall i :: 0 <= i < |s| ==> !IsSpace(s[i])
  }

  ghost predicate AllIn(s: string, i: nat, j: nat, k: CharClass)
    requires j <= |s|
  {
    forall m :: i <= m < j ==> In(s[m], k)
  }

  lemma ConcatAssoc<T>(a: seq<T>, b: seq<T>, c: seq<T>)
    ensures a + (b + c) == (a + b) + c
  {
  }

  lemma SliceSlice<T>(s: seq<T>, i: nat, end: nat, a: nat, b: nat)
    requires i <= a <= b <= end <= |s|
    ensures s[i..end][a - i..b - i] == s[a..b]
  {
    var t := s[i..end][a - i..b - i];
    assert forall k :: 0 <= k < b - a ==> t[k] == s[a..b][k];
  }

  // --- trimming ---

  /** First position from i on that is outside the class. */
  function SkipFrom(s: string, i: nat, k: CharClass): (n: nat)
    requires i <= |s|
    ensures i <= n <= |s|
    ensures AllIn(s, i, n, k)
    ensures n < |s| ==> !In(s[n], k)
    decreases |s| - i
  {
    if i < |s| && In(s[i], k) then SkipFrom(s, i + 1, k) else i
  }

  /** End of what is left of s[i..j] when trailing members of the class are dropped. */
  function BackTo(s: string, i: nat, j: nat, k: CharClass): (n: nat)
    requires i <= j <= |s|
    ensures i <= n <= j
    ensures AllIn(s, n, j, k)
    ensures n > i ==> !In(s[n - 1], k)
  {
    if j > i && In(s[j - 1], k) then BackTo(s, i, j - 1, k) else j
  }

  lemma SkipFromIs(s: string, i: nat, k: CharClass, n: nat)
    requires i <= n <= |s| && AllIn(s, i, n, k) && (n == |s| || !In(s[n], k))
    ensures SkipFrom(s, i, k) == n
  {
  }

  lemma BackToIs(s: string, i: nat, j: nat, k: CharClass, n: nat)
    requires i <= n <= j <= |s| && AllIn(s, n, j, k) && (n == i || !In(s[n - 1], k))
    ensures BackTo(s, i, j, k) == n
  {
  }

  lemma WordEndIs(s: string, i: nat, k: CharClass, n: nat)
    requires i <= n <= |s| && (forall m :: i <= m < n ==> !In(s[m], k)) && (n == |s| || In(s[n], k))
    ensures WordEnd(s, i, k) == n
  {
  }

  /** str::trim */
  function Trim(s: string): string {
    var i := SkipFrom(s, 0, Space);
    s[i..BackTo(s, i, |s|, Space)]
  }

  /** s[i..j] is what is left of s[from..] when the given classes are trimmed off its ends. */
  ghost predicate Core(s: string, from: nat, i: nat, j: nat, front: CharClass, back: CharClass) {
    && from <= i <= j <= |s|
    && AllIn(s, from, i, front) && (i == |s| || !In(s[i], front))
    && AllIn(s, j, |s|, back) && (j == i || !In(s[j - 1], back))
  }

  lemma CoreIsTrim(s: string, i: nat, j: nat)
    requires Core(s, 0, i, j, Space, Space)
    ensures Trim(s) == s[i..j]
  {
  }

  lemma TrimIsCore(s: string) returns (i: nat, j: nat)
    ensures Core(s, 0, i, j, Space, Space) && Trim(s) == s[i..j]
  {
    i := SkipFrom(s, 0, Space);
    j := BackTo(s, i, |s|, Space);
  }

  // --- searching ---

  /** First position of c from i on, or |s|. */
  function IndexFrom(s: string, c: char, i: nat): (n: nat)
    requires i <= |s|
    ensures i <= n <= |s|
    ensures n < |s| ==> s[n] == c
    ensures forall m :: i <= m < n ==> s[m] != c
    decreases |s| - i
  {
    if i == |s| || s[i] == c then i else IndexFrom(s, c, i + 1)
  }

  function IndexOf(s: string, c: char): (n: nat)
    ensures n <= |s|
  {
    IndexFrom(s, c, 0)
  }

  lemma IndexOfAt(s: string, c: char, n: nat)
    requires n <= |s|
    requires forall i :: 0 <= i < n ==> s[i] != c
    requires n == |s| || s[n] == c
    ensures IndexOf(s, c) == n
  {
  }

  predicate Matches(s: string, sub: string, i: nat) {
    i + |sub| <= |s| && s[i..i + |sub|] == sub
  }

  /** str::find from position i on. */
  function FindFrom(s: string, sub: string, i: nat): (r: Option<nat>)
    requires i <= |s|
    ensures r.Some? ==> i <= r.value && Matches(s, sub, r.value)
    ensures r.Some? ==> forall m: nat :: i <= m < r.value ==> !Matches(s, sub, m)
    ensures r.None? ==> forall m: nat :: i <= m ==> !Matches(s, sub, m)
    decreases |s| - i
  {
    if Matches(s, sub, i) then Some(i)
    else if i == |s| then None
    else FindFrom(s, sub, i + 1)
  }

  /** str::find: the first place where sub occurs. */
  function Find(s: string, sub: string): (r: Option<nat>) {
    FindFrom(s, sub, 0)
  }

  /** str::contains */
  predicate Contains(s: string, sub: string) {
    Find(s, sub).Some?
  }

  lemma ContainsExact(s: string, sub: string)
    ensures Contains(s, sub) <==> exists i: nat :: Matches(s, sub, i)
  {
  }

  /** A text without one of the needle's characters does not contain the needle. */
  lemma NotContained(s: string, sub: string, k: nat)
    requires k < |sub| && sub[k] !in s
    ensures !Contains(s, sub)
  {
  }

  // --- splitting ---

  /** str::split on one character. */
  function Split(s: string, c: char): (r: seq<string>)
    ensures |r| >= 1
  {
    var n := IndexOf(s, c);
    if n == |s| then [s] else [s[..n]] + Split(s[n + 1..], c)
  }

  function Join(parts: seq<string>, c: char): string {
    if |parts| == 0 then ""
    else if |parts| == 1 then parts[0]
    else parts[0] + [c] + Join(parts[1..], c)
  }

  lemma JoinCons(a: string, parts: seq<string>, c: char)
    ensures Join([a] + parts, c) == if parts == [] then a else a + [c] + Join(parts, c)
  {
  }

  /** Split is the decomposition into c-free parts that Join undoes. */
  lemma {:induction false} JoinSplit(s: string, c: char)
    ensures Join(Split(s, c), c) == s
    ensures forall f :: f in Split(s, c) ==> c !in f
  {
    var n := IndexOf(s, c);
    if n < |s| {
      JoinSplit(s[n + 1..], c);
      JoinCons(s[..n], Split(s[n + 1..], c), c);
      assert s == s[..n] + [c] + s[n + 1..];
    }
  }

  lemma SplitHead(a: string, c: char, b: string)
    requires c !in a
    ensures Split(a + [c] + b, c) == [a] + Split(b, c)
  {
    var s := a + [c] + b;
    assert forall i :: 0 <= i < |a| ==> s[i] == a[i];
    IndexOfAt(s, c, |a|);
    assert s[..|a|] == a;
    assert s[|a| + 1..] == b;
  }

  lemma SplitOne(a: string, c: char)
    requires c !in a
    ensures Split(a, c) == [a]
  {
  }

  /** Position of the first member of the class from i on, or |s|. */
  function WordEnd(s: string, i: nat, k: CharClass): (n: nat)
    requires i <= |s|
    ensures i <= n <= |s|
    ensures forall m :: i <= m < n ==> !In(s[m], k)
    ensures n < |s| ==> In(s[n], k)
    decreases |s| - i
  {
    if i == |s| || In(s[i], k) then i else WordEnd(s, i + 1, k)
  }

  /** The maximal runs of characters outside the class, in order. */
  function Words(s: string, k: CharClass): (r: seq<string>)
    decreases |s|
  {
    if s == "" then []
    else if In(s[0], k) then Words(s[1..], k)
    else var n := WordEnd(s, 1, k); [s[..n]] + Words(s[n..], k)
  }

  /** split_whitespace */
  function SplitWs(s: string): seq<string> {
    Words(s, Space)
  }

  lemma WordsHead(a: string, b: string, k: CharClass)
    requires a != "" && forall i :: 0 <= i < |a| ==> !In(a[i], k)
    requires b == "" || In(b[0], k)
    ensures Words(a + b, k) == [a] + Words(b, k)
  {
    var s := a + b;
    assert s[0] == a[0];
    assert forall i :: 0 <= i < |a| ==> s[i] == a[i];
    assert WordEnd(s, 1, k) == |a| by {
      assert |a| < |s| ==> s[|a|] == b[0];
    }
    assert s[..|a|] == a && s[|a|..] == b;
  }

  lemma WordFirst(a: string, n: nat, w: char, b: string, k: CharClass)
    requires 0 < n <= |a| && In(w, k)
    requires (forall i :: 0 <= i < n ==> !In(a[i], k)) && (n == |a| || In(a[n], k))
    ensures Words(a + [w] + b, k) == [a[..n]] + Words(a[n..] + [w] + b, k)
  {
    assert a + [w] + b == a[..n] + (a[n..] + [w] + b);
    WordsHead(a[..n], a[n..] + [w] + b, k);
  }

  /** Cutting a text at a separator cuts its word list. */
  lemma {:induction false} WordsConcat(a: string, w: char, b: string, k: CharClass)
    requires In(w, k)
    ensures Words(a + [w] + b, k) == Words(a, k) + Words(b, k)
    decreases |a|
  {
    var s := a + [w] + b;
    if a == "" {
      assert s[1..] == b;
    } else if In(a[0], k) {
      assert s[1..] == a[1..] + [w] + b;
      WordsConcat(a[1..], w, b, k);
    } else {
      var n := WordEnd(a, 1, k);
      WordsConcat(a[n..], w, b, k);
      WordFirst(a, n, w, b, k);
      ConcatAssoc([a[..n]], Words(a[n..], k), Words(b, k));
    }
  }

  lemma SplitWsWord(s: string)
    requires s != "" && SpaceFree(s)
    ensures SplitWs(s) == [s]
  {
    WordsHead(s, "", Space);
    assert s + "" == s;
  }

  lemma WordThen(w: string, rest: string)
    requires w != "" && SpaceFree(w)
    ensures SplitWs(w + " " + rest) == [w] + SplitWs(rest)
  {
    WordsConcat(w, ' ', rest, Space);
    SplitWsWord(w);
  }

  lemma SplitWsTrailing(s: string, w: char)
    requires IsSpace(w)
    ensures SplitWs(s + [w]) == SplitWs(s)
  {
    WordsConcat(s, w, "", Space);
    assert s + [w] + "" == s + [w];
  }

  /** Words are non-empty, free of whitespace, and no longer than the text. */
  lemma {:induction false} SplitWsWords(s: string)
    ensures forall f :: f in SplitWs(s) ==> f != "" && SpaceFree(f) && |f| <= |s|
    ensures forall f, c :: f in SplitWs(s) && c in f ==> c in s
    ensures forall f :: f in SplitWs(s) && |f| == |s| ==> f == s
    decreases |s|
  {
    if s != "" {
      if IsSpace(s[0]) {
        SplitWsWords(s[1..]);
      } else {
        var n := WordEnd(s, 1, Space);
        SplitWsWords(s[n..]);
        assert forall c :: c in s[n..] ==> c in s;
        assert forall c :: c in s[..n] ==> c in s;
      }
    }
  }

  // --- lines ---

  function StripCr(line: string): string {
    if line != "" && line[|line| - 1] == '\r' then line[..|line| - 1] else line
  }

  /** str::lines: '\n' ends a line, one '\r' before it is dropped, a final empty line is not a line. */
  function Lines(s: string): (r: seq<string>)
    decreases |s|
  {
    if s == "" then []
    else
      var n := IndexOf(s, '\n');
      if n == |s| then [s] else [StripCr(s[..n])] + Lines(s[n + 1..])
  }

  /** The lines as the byte scanners see them: only '\n' is a line end. */
  function RawLines(s: string): (r: seq<string>)
    decreases |s|
  {
    if s == "" then []
    else
      var n := IndexOf(s, '\n');
      if n == |s| then [s] else [s[..n]] + RawLines(s[n + 1..])
  }

  ghost predicate OneLine(s: string) {
    '\n' !in s
  }

  lemma LinesHead(a: string, b: string)
    requires OneLine(a)
    ensures Lines(a + "\n" + b) == [StripCr(a)] + Lines(b)
    ensures RawLines(a + "\n" + b) == [a] + RawLines(b)
  {
    var s := a + "\n" + b;
    assert forall i :: 0 <= i < |a| ==> s[i] == a[i];
    IndexOfAt(s, '\n', |a|);
    assert s[..|a|] == a && s[|a| + 1..] == b;
  }

  lemma LinesOne(a: string)
    requires OneLine(a)
    ensures Lines(a) == RawLines(a) == if a == "" then [] else [a]
  {
  }

  lemma {:induction false} LinesOneLine(s: string)
    ensures forall l :: l in Lines(s) ==> OneLine(l)
    decreases |s|
  {
    if s != "" {
      var n := IndexOf(s, '\n');
      if n < |s| {
        LinesOneLine(s[n + 1..]);
      }
    }
  }

  function Optional<T>(o: Option<T>): seq<T> {
    match o case Some(v) => [v] case None => []
  }

  /** iter().filter_map(f).collect() over lines. */
  function FilterMap<T>(f: string -> Option<T>, lines: seq<string>): seq<T> {
    if lines == [] then [] else Optional(f(lines[0])) + FilterMap(f, lines[1..])
  }

  lemma FilterMapCons<T>(f: string -> Option<T>, line: string, lines: seq<string>)
    ensures FilterMap(f, [line] + lines) == Optional(f(line)) + FilterMap(f, lines)
  {
  }

  lemma {:induction false} InFilterMap<T>(f: string -> Option<T>, lines: seq<string>, i: nat)
    requires i < |lines| && f(lines[i]).Some?
    ensures f(lines[i]).value in FilterMap(f, lines)
  {
    if i > 0 {
      InFilterMap(f, lines[1..], i - 1);
    }
  }

  /** f does not see a dropped '\r' and finds nothing on an empty line. */
  ghost predicate LineFunction<T(!new)>(f: string -> Option<T>) {
    && f("") == None
    && forall l :: f(StripCr(l)) == f(l)
  }

  /** For such an f it is the same to read raw lines or lines. */
  lemma {:induction false} RawOrStripped<T(!new)>(f: string -> Option<T>, s: string)
    requires LineFunction(f)
    ensures FilterMap(f, Lines(s)) == FilterMap(f, RawLines(s))
    decreases |s|
  {
    if s != "" {
      var n := IndexOf(s, '\n');
      if n < |s| {
        RawOrStripped(f, s[n + 1..]);
        FilterMapCons(f, StripCr(s[..n]), Lines(s[n + 1..]));
        FilterMapCons(f, s[..n], RawLines(s[n + 1..]));
      }
    }
  }

  /** Reading a text reads its first line, then the rest. */
  lemma ReadHead<T(!new)>(f: string -> Option<T>, a: string, b: string)
    requires LineFunction(f) && OneLine(a)
    ensures FilterMap(f, Lines(a + "\n" + b)) == Optional(f(a)) + FilterMap(f, Lines(b))
    ensures FilterMap(f, Lines(a)) == Optional(f(a))
  {
    LinesHead(a, b);
    LinesOne(a);
    assert f(StripCr(a)) == f(a);
    FilterMapCons(f, StripCr(a), Lines(b));
  }

  lemma ReadPastHead<T(!new)>(f: string -> Option<T>, a: string, n: nat, b: string)
    requires LineFunction(f)
    requires n < |a| && a[n] == '\n' && OneLine(a[..n])
    ensures FilterMap(f, Lines(a)) == Optional(f(a[..n])) + FilterMap(f, Lines(a[n + 1..]))
    ensures FilterMap(f, Lines(a + "\n" + b))
         == Optional(f(a[..n])) + FilterMap(f, Lines(a[n + 1..] + "\n" + b))
  {
    assert a == a[..n] + "\n" + a[n + 1..];
    ReadHead(f, a[..n], a[n + 1..]);
    assert a + "\n" + b == a[..n] + "\n" + (a[n + 1..] + "\n" + b);
    ReadHead(f, a[..n], a[n + 1..] + "\n" + b);
  }

  /** Reading a text that was glued with a line break reads both parts. */
  lemma {:induction false} ReadConcat<T(!new)>(f: string -> Option<T>, a: string, b: string)
    requires LineFunction(f)
    ensures FilterMap(f, Lines(a + "\n" + b)) == FilterMap(f, Lines(a)) + FilterMap(f, Lines(b))
    decreases |a|
  {
    var n := IndexOf(a, '\n');
    if n == |a| {
      ReadHead(f, a, b);
    } else {
      var a1 := a[n + 1..];
      calc {
        FilterMap(f, Lines(a + "\n" + b));
        { ReadPastHead(f, a, n, b); }
        Optional(f(a[..n])) + FilterMap(f, Lines(a1 + "\n" + b));
        { ReadConcat(f, a1, b); }
        Optional(f(a[..n])) + (FilterMap(f, Lines(a1)) + FilterMap(f, Lines(b)));
        { ConcatAssoc(Optional(f(a[..n])), FilterMap(f, Lines(a1)), FilterMap(f, Lines(b))); }
        (Optional(f(a[..n])) + FilterMap(f, Lines(a1))) + FilterMap(f, Lines(b));
        { ReadPastHead(f, a, n, b); }
        FilterMap(f, Lines(a)) + FilterMap(f, Lines(b));
      }
    }
  }

  /** Reading joined lines reads the lines. */
  lemma {:induction false} ReadJoin<T(!new)>(f: string -> Option<T>, lines: seq<string>)
    requires LineFunction(f)
    requires forall l :: l in lines ==> OneLine(l)
    ensures FilterMap(f, Lines(Join(lines, '\n'))) == FilterMap(f, lines)
  {
    if lines != [] {
      ReadHead(f, lines[0], "");
      if |lines| > 1 {
        ReadJoin(f, lines[1..]);
        ReadConcat(f, lines[0], Join(lines[1..], '\n'));
      }
    }
  }

  // --- replacing ---

  /** str::replace for a non-empty pattern: every occurrence, left to right, not overlapping. */
  function Replace(s: string, pat: string, to: string): string
    requires pat != ""
    decreases |s|
  {
    if s == "" then ""
    else if pat <= s then to + Replace(s[|pat|..], pat, to)
    else [s[0]] + Replace(s[1..], pat, to)
  }

  lemma {:induction false} ReplaceAbsent(s: string, pat: string, to: string)
    requires pat != "" && !Contains(s, pat)
    ensures Replace(s, pat, to) == s
  {
    if s != "" {
      forall i: nat
        ensures !Matches(s[1..], pat, i)
      {
        assert i + 1 + |pat| <= |s| ==> s[1..][i..i + |pat|] == s[i + 1..i + 1 + |pat|];
        assert !Matches(s, pat, i + 1);
      }
      assert !Matches(s, pat, 0);
      ReplaceAbsent(s[1..], pat, to);
    }
  }

  /** A pattern without c is replaced inside each part between two c. */
  lemma {:induction false} ReplaceAcross(a: string, c: char, b: string, pat: string, to: string)
    requires pat != "" && c !in pat
    ensures Replace(a + [c] + b, pat, to) == Replace(a, pat, to) + [c] + Replace(b, pat, to)
    decreases |a|
  {
    var s := a + [c] + b;
    assert s[|a|] == c;
    if a == "" {
      assert s[1..] == b;
    } else if pat <= s {
      assert pat <= a;
      assert s[|pat|..] == a[|pat|..] + [c] + b;
      ReplaceAcross(a[|pat|..], c, b, pat, to);
    } else {
      assert a <= s;
      assert s[1..] == a[1..] + [c] + b;
      ReplaceAcross(a[1..], c, b, pat, to);
    }
  }

  lemma {:induction false} ReplaceChars(s: string, pat: string, to: string)
    requires pat != ""
    ensures forall c :: c in Replace(s, pat, to) ==> c in s || c in to
    ensures s != "" && to != "" ==> Replace(s, pat, to) != ""
    decreases |s|
  {
    if s != "" {
      ReplaceChars(if pat <= s then s[|pat|..] else s[1..], pat, to);
    }
  }
}
