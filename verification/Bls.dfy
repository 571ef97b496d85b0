/**
 The line grammar of Boot Loader Specification entries, parsed a second way: into comments,
 blank lines and fields. On ordinary text it agrees with the field scanner, line by line.
 */
module Bls {
  import opened Wrappers
  import opened Text
  import opened Scanners

  datatype BlsLine =
    | Comment(text: string)
    | Empty(text: string)
    | Field(key: string, value: string, prefix: string)

  function Raw(l: BlsLine): string {
    match l
    case Field(_, value, prefix) => prefix + value
    case _ => l.text
  }

  function ParseTrimmed(t: string): BlsLine
    requires t != ""
  {
    var sep := WordEnd(t, 0, Blank);
    var v := SkipFrom(t, sep, Space);
    if sep < |t| then Field(t[..sep], t[v..], t[..v]) else Field(t, "", t)
  }

  function ParseBlsLine(line: string): BlsLine {
    var t := Trim(line);
    if t == "" then Empty(line)
    else if t[0] == '#' then Comment(line)
    else ParseTrimmed(t)
  }

  function ParseBlsLines(lines: seq<string>): seq<BlsLine> {
    if lines == [] then [] else [ParseBlsLine(lines[0])] + ParseBlsLines(lines[1..])
  }

  function ParseBls(content: string): seq<BlsLine> {
    ParseBlsLines(Lines(content))
  }

  /** The field on a line, if there is one. */
  function FieldLine(line: string): Option<BlsLine> {
    var l := ParseBlsLine(line);
    if l.Field? then Some(l) else None
  }

  function OnlyFields(lines: seq<BlsLine>): seq<BlsLine> {
    if lines == [] then []
    else (if lines[0].Field? then [lines[0]] else []) + OnlyFields(lines[1..])
  }

  /** The fields of an entry, in order. */
  function Fields(content: string): seq<BlsLine> {
    OnlyFields(ParseBls(content))
  }

  /** The values of the fields with this key. */
  function ValuesOf(fields: seq<BlsLine>, key: string): seq<string> {
    if fields == [] then []
    else
      (if fields[0].Field? && fields[0].key == key then [fields[0].value] else []) + ValuesOf(fields[1..], key)
  }

  function DropEmpty(vs: seq<string>): seq<string> {
    if vs == [] then [] else (if vs[0] == "" then [] else [vs[0]]) + DropEmpty(vs[1..])
  }

  // --- ordinary text ---

  /** The only whitespace on the line is spaces and tabs, but for one '\r' at its end. */
  ghost predicate CleanLine(line: string) {
    forall k :: 0 <= k < |line| && IsSpace(line[k]) ==> IsBlank(line[k]) || (line[k] == '\r' && k == |line| - 1)
  }

  ghost predicate CleanText(content: string) {
    forall l :: l in Lines(content) ==> CleanLine(l)
  }

  ghost predicate PlainKey(key: string) {
    key != "" && SpaceFree(key)
  }

  // --- one line ---

  /** On a clean line both parsers start at the same place and end at the same place. */
  lemma SameBounds(line: string, i: nat, j: nat)
    requires CleanLine(line) && Core(line, 0, i, j, Space, Space) && i < j
    ensures SkipFrom(line, 0, Blank) == i
    ensures AllIn(line, j, |line|, BlankOrCr) && !In(line[j - 1], BlankOrCr)
  {
  }

  /** On a line of whitespace the scanner finds nothing. */
  lemma BlankHasNoField(line: string, key: string)
    requires CleanLine(line) && AllIn(line, 0, |line|, Space) && PlainKey(key)
    ensures FieldOf(line, key) == None
  {
  }

  /** A scanned key is the first word of the trimmed line. */
  lemma ScannedKey(line: string, key: string, i: nat, j: nat)
    requires Core(line, 0, i, j, Space, Space) && i < j
    requires KeyAt(line, key, i) && SpaceFree(key)
    ensures i + |key| <= j && WordEnd(line[i..j], 0, Blank) == |key|
  {
    var q := i + |key|;
    assert forall m :: i <= m < q ==> line[m] == line[i..q][m - i];
    assert q <= j by {
      assert j < |line| ==> IsSpace(line[j]);
    }
    var t := line[i..j];
    assert forall m :: 0 <= m < |t| ==> t[m] == line[i + m];
    WordEndIs(t, 0, Blank, |key|);
  }

  /** The value of a key that fills the trimmed line is empty. */
  lemma ScannedNoValue(line: string, key: string, i: nat, j: nat)
    requires CleanLine(line) && Core(line, 0, i, j, Space, Space) && i < j
    requires KeyAt(line, key, i) && i + |key| == j
    ensures FieldOf(line, key) == Some("")
  {
    SameBounds(line, i, j);
    var a := SkipFrom(line, j + 1, Blank);
    BackToIs(line, a, |line|, BlankOrCr, a);
    assert line[a..a] == "";
  }

  /** Otherwise it is the rest of the trimmed line after the blanks. */
  lemma ScannedValue(line: string, key: string, i: nat, j: nat)
    requires CleanLine(line) && Core(line, 0, i, j, Space, Space) && i < j
    requires KeyAt(line, key, i) && i + |key| < j
    ensures var t := line[i..j]; FieldOf(line, key) == Some(t[SkipFrom(t, |key|, Space)..])
  {
    var a := ValueStart(line, i + |key|, j);
    SliceSkip(line, i, j, |key|, a - i);
    ScannedShape(line, key, i, a, j);
  }

  lemma ValueStart(line: string, q: nat, j: nat) returns (a: nat)
    requires CleanLine(line) && q < j <= |line| && IsBlank(line[q]) && !IsSpace(line[j - 1])
    ensures q < a < j && AllIn(line, q, a, Blank) && !IsSpace(line[a])
  {
    a := SkipFrom(line, q, Blank);
    assert a < j by {
      assert !In(line[j - 1], Blank);
    }
    assert a < |line| - 1 || a == j - 1;
  }

  lemma ScannedShape(line: string, key: string, i: nat, a: nat, j: nat)
    requires CleanLine(line) && Core(line, 0, i, j, Space, Space)
    requires KeyAt(line, key, i) && i + |key| < a < j
    requires AllIn(line, i + |key|, a, Blank) && !IsSpace(line[a])
    ensures FieldOf(line, key) == Some(line[a..j])
  {
  }

  lemma SliceSkip(line: string, i: nat, j: nat, n: nat, m: nat)
    requires n < m && i + m < j <= |line| && AllIn(line, i + n, i + m, Blank) && !IsSpace(line[i + m])
    ensures SkipFrom(line[i..j], n, Space) == m && line[i..j][m..] == line[i + m..j]
  {
  }

  /** A parsed key with a value sits where the scanner looks for it. */
  lemma ParsedKeyIsScanned(line: string, i: nat, j: nat)
    requires CleanLine(line) && Core(line, 0, i, j, Space, Space) && i < j && line[i] != '#'
    requires WordEnd(line[i..j], 0, Blank) < j - i
    ensures var key := line[i..j][..WordEnd(line[i..j], 0, Blank)]; KeyAt(line, key, i) && PlainKey(key)
  {
  }

  /**
   The two parsers on one clean line: with a value both give the same, without one the scanner
   gives nothing or the empty value.
   */
  lemma LineAgrees(line: string, key: string)
    requires CleanLine(line) && PlainKey(key)
    ensures match ParseBlsLine(line)
      case Field(k, v, _) =>
        if v != "" then FieldOf(line, key) == if k == key then Some(v) else None
        else FieldOf(line, key) == None || (k == key && FieldOf(line, key) == Some(""))
      case _ => FieldOf(line, key) == None
  {
    var i, j := TrimIsCore(line);
    if i == j {
      BlankHasNoField(line, key);
    } else {
      SameBounds(line, i, j);
      var t := line[i..j];
      assert t[0] == line[i];
      if line[i] != '#' {
        if KeyAt(line, key, i) {
          ScannedKey(line, key, i, j);
          if i + |key| < j {
            ScannedValue(line, key, i, j);
          } else {
            ScannedNoValue(line, key, i, j);
          }
          assert key == line[i..i + |key|] == t[..|key|];
        } else if WordEnd(t, 0, Blank) < |t| {
          ParsedKeyIsScanned(line, i, j);
        }
      }
    }
  }

  // --- whole entries ---

  lemma FieldOfKeyIsLineFunction(key: string)
    ensures LineFunction(FieldOfKey(key))
  {
    forall l: string
      ensures FieldOf(StripCr(l), key) == FieldOf(l, key)
    {
      CrDoesNotMatter(l, key);
    }
  }

  lemma CrDoesNotMatter(l: string, key: string)
    ensures FieldOf(StripCr(l), key) == FieldOf(l, key)
  {
    if l != "" && l[|l| - 1] == '\r' && key != "" {
      var s := StripCr(l);
      forall i: nat, j: nat, e: nat
        ensures FieldShape(s, key, i, j, e) <==> FieldShape(l, key, i, j, e)
        ensures FieldShape(l, key, i, j, e) ==> s[j..e] == l[j..e]
      {
        ShapeWithoutCr(l, key, i, j, e);
      }
      BothWays(s, l, key);
    }
  }

  lemma BothWays(s: string, l: string, key: string)
    requires key != ""
    requires forall i: nat, j: nat, e: nat ::
      (FieldShape(s, key, i, j, e) <==> FieldShape(l, key, i, j, e))
      && (FieldShape(l, key, i, j, e) ==> s[j..e] == l[j..e])
    ensures FieldOf(s, key) == FieldOf(l, key)
  {
    if FieldOf(s, key).Some? {
      FieldOfExact(s, key, FieldOf(s, key).value);
      var i: nat, j: nat, e: nat :| FieldShape(s, key, i, j, e) && FieldOf(s, key).value == s[j..e];
      ShapeIsField(l, key, i, j, e);
    } else if FieldOf(l, key).Some? {
      FieldOfExact(l, key, FieldOf(l, key).value);
      var i: nat, j: nat, e: nat :| FieldShape(l, key, i, j, e) && FieldOf(l, key).value == l[j..e];
      ShapeIsField(s, key, i, j, e);
    }
  }

  lemma ShapeWithoutCr(l: string, key: string, i: nat, j: nat, e: nat)
    requires l != "" && l[|l| - 1] == '\r' && key != ""
    ensures var s := l[..|l| - 1];
      && (FieldShape(s, key, i, j, e) <==> FieldShape(l, key, i, j, e))
      && (FieldShape(l, key, i, j, e) ==> s[j..e] == l[j..e])
  {
  }

  lemma {:induction false} FieldsByLine(lines: seq<string>)
    ensures OnlyFields(ParseBlsLines(lines)) == FilterMap(FieldLine, lines)
  {
    if lines != [] {
      FieldsByLine(lines[1..]);
      assert ParseBlsLines(lines)[1..] == ParseBlsLines(lines[1..]);
    }
  }

  ghost predicate AllValued(fields: seq<BlsLine>) {
    forall f :: f in fields && f.Field? ==> f.value != ""
  }

  lemma DropEmptyCons(v: Option<string>, vs: seq<string>)
    ensures DropEmpty(Optional(v) + vs)
         == (if v.Some? && v.value != "" then [v.value] else []) + DropEmpty(vs)
  {
    if v.Some? {
      assert (Optional(v) + vs)[1..] == vs;
    } else {
      assert Optional(v) + vs == vs;
    }
  }

  lemma {:induction false} AgreeOnLines(lines: seq<string>, key: string)
    requires PlainKey(key) && forall l :: l in lines ==> CleanLine(l)
    ensures DropEmpty(FilterMap(FieldOfKey(key), lines)) == DropEmpty(ValuesOf(ParseBlsLines(lines), key))
    ensures AllValued(ParseBlsLines(lines)) ==>
      FilterMap(FieldOfKey(key), lines) == ValuesOf(ParseBlsLines(lines), key)
  {
    if lines != [] {
      var parsed := ParseBlsLines(lines);
      var p := ParseBlsLine(lines[0]);
      LineAgrees(lines[0], key);
      AgreeOnLines(lines[1..], key);
      assert parsed[0] == p && parsed[1..] == ParseBlsLines(lines[1..]);
      var found := FieldOf(lines[0], key);
      var read := if p.Field? && p.key == key then Some(p.value) else None;
      DropEmptyCons(found, FilterMap(FieldOfKey(key), lines[1..]));
      DropEmptyCons(read, ValuesOf(parsed[1..], key));
      assert ValuesOf(parsed, key) == Optional(read) + ValuesOf(parsed[1..], key);
      assert p.Field? && AllValued(parsed) ==> p in parsed && p.value != "";
    }
  }

  /**
   The two BLS parsers agree: their non-empty values are the same, in order; when every field has
   a value, so are all values.
   */
  lemma ParsersAgree(content: string, key: string)
    requires CleanText(content) && PlainKey(key)
    ensures DropEmpty(FieldValues(content, key)) == DropEmpty(ValuesOf(ParseBls(content), key))
    ensures AllValued(ParseBls(content)) ==> FieldValues(content, key) == ValuesOf(ParseBls(content), key)
  {
    FieldOfKeyIsLineFunction(key);
    RawOrStripped(FieldOfKey(key), content);
    AgreeOnLines(Lines(content), key);
  }
}
