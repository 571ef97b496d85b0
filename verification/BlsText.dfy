/** Writing parsed boot entry lines back without a change: when it gives the old line, and the old text. */
module BlsText {
  import opened Wrappers
  import opened Text
  import opened Bls

  /** The written form is the line itself, but for a field that is the trimmed line. */
  lemma WrittenForm(line: string)
    ensures Raw(ParseBlsLine(line)) == if ParseBlsLine(line).Field? then Trim(line) else line
  {
  }

  /** A line is written back unchanged if and only if it is no field or has no whitespace at its ends. */
  lemma RawIsLossless(line: string)
    ensures Raw(ParseBlsLine(line)) == line <==> (ParseBlsLine(line).Field? ==> Trim(line) == line)
    ensures |Raw(ParseBlsLine(line))| <= |line|
  {
    WrittenForm(line);
    var i, j := TrimIsCore(line);
  }

  /** For example an indented field loses its indentation. */
  lemma IndentIsLost(word: string)
    requires PlainKey(word) && word[0] != '#'
    ensures ParseBlsLine(" " + word).Field? && Raw(ParseBlsLine(" " + word)) != " " + word
  {
    var line := " " + word;
    assert forall k :: 0 <= k < |word| ==> line[k + 1] == word[k];
    CoreIsTrim(line, 1, |line|);
    assert line[1..|line|] == word;
    WrittenForm(line);
  }

  // --- whole texts ---

  function WrittenLines(lines: seq<BlsLine>): seq<string> {
    if lines == [] then [] else [Raw(lines[0])] + WrittenLines(lines[1..])
  }

  /** The lines parsed, written and joined. */
  function Written(content: string): string {
    Join(WrittenLines(ParseBls(content)), '\n')
  }

  ghost predicate NoCrLf(s: string) {
    forall i :: 0 <= i < |s| - 1 && s[i] == '\r' ==> s[i + 1] != '\n'
  }

  ghost predicate FieldsAreTrimmed(lines: seq<string>) {
    forall l :: l in lines && ParseBlsLine(l).Field? ==> Trim(l) == l
  }

  /** No final line break, no "\r\n", and no field line with whitespace at its ends. */
  ghost predicate WritesBack(content: string) {
    && (content != "" ==> content[|content| - 1] != '\n')
    && NoCrLf(content) && FieldsAreTrimmed(Lines(content))
  }

  lemma CutAtBreak(content: string, n: nat)
    requires n < |content| && content[n] == '\n'
    ensures content == content[..n] + "\n" + content[n + 1..]
  {
  }

  lemma HeadAndTail(content: string, n: nat)
    requires n < |content| - 1 && content[n] == '\n' && OneLine(content[..n])
    ensures var head, tail := content[..n], content[n + 1..];
      && Written(content) == Raw(ParseBlsLine(StripCr(head))) + "\n" + Written(tail)
      && Lines(content) == [StripCr(head)] + Lines(tail)
  {
    var head, tail := content[..n], content[n + 1..];
    CutAtBreak(content, n);
    LinesHead(head, tail);
    var rest := ParseBlsLines(Lines(tail));
    assert ParseBls(content)[1..] == rest;
    assert WrittenLines(ParseBls(content)) == [Raw(ParseBlsLine(StripCr(head)))] + WrittenLines(rest);
    JoinCons(Raw(ParseBlsLine(StripCr(head))), WrittenLines(rest), '\n');
  }

  lemma WritesBackByLine(content: string, n: nat)
    requires n < |content| - 1 && content[n] == '\n' && OneLine(content[..n])
    requires Lines(content) == [StripCr(content[..n])] + Lines(content[n + 1..])
    ensures var head, tail := content[..n], content[n + 1..];
      WritesBack(content) <==>
        StripCr(head) == head && (ParseBlsLine(head).Field? ==> Trim(head) == head) && WritesBack(tail)
  {
    var head, tail := content[..n], content[n + 1..];
    BreaksByLine(content, n);
    TrimmedByLine(StripCr(head), Lines(tail));
    assert tail[|tail| - 1] == content[|content| - 1];
  }

  lemma TrimmedByLine(line: string, rest: seq<string>)
    ensures FieldsAreTrimmed([line] + rest)
       <==> (ParseBlsLine(line).Field? ==> Trim(line) == line) && FieldsAreTrimmed(rest)
  {
    assert forall l :: l in [line] + rest <==> l == line || l in rest;
  }

  lemma BreaksByLine(content: string, n: nat)
    requires n < |content| && content[n] == '\n' && OneLine(content[..n])
    ensures NoCrLf(content) <==> StripCr(content[..n]) == content[..n] && NoCrLf(content[n + 1..])
  {
    var head, tail := content[..n], content[n + 1..];
    assert forall k :: 0 <= k < |tail| ==> tail[k] == content[n + 1 + k];
    assert forall k :: n < k < |content| ==> content[k] == tail[k - n - 1];
    assert forall k :: 0 <= k < n ==> head[k] == content[k] && content[k] != '\n' by {
      assert forall k :: 0 <= k < n ==> head[k] in head;
    }
    assert StripCr(head) != head <==> n > 0 && content[n - 1] == '\r';
    if NoCrLf(tail) && StripCr(head) == head {
      forall i | 0 <= i < |content| - 1 && content[i] == '\r'
        ensures content[i + 1] != '\n'
      {
        if i > n {
          assert tail[i - n - 1] == '\r' && tail[i - n] == content[i + 1];
        }
      }
    }
  }

  lemma WrittenOne(content: string, line: string)
    requires Lines(content) == [line]
    ensures Written(content) == Raw(ParseBlsLine(line))
  {
    assert [line][1..] == [] && ParseBls(content)[1..] == [];
    assert ParseBls(content)[0] == ParseBlsLine(line);
    assert WrittenLines(ParseBls(content)) == [Raw(ParseBlsLine(line))];
  }

  /** Two parts, neither longer than before, are the old text exactly if both are what they were. */
  lemma SameParts(a: string, b: string, head: string, tail: string, back: bool, backTail: bool)
    requires |a| <= |head| && |b| <= |tail|
    requires (b == tail <==> backTail) && (back <==> a == head && backTail)
    ensures a + "\n" + b == head + "\n" + tail <==> back
  {
    if a + "\n" + b == head + "\n" + tail {
      assert |a| == |head| && |b| == |tail|;
      assert (a + "\n" + b)[..|a|] == a && (head + "\n" + tail)[..|a|] == head;
      assert (a + "\n" + b)[|a| + 1..] == b && (head + "\n" + tail)[|a| + 1..] == tail;
    }
  }

  ghost predicate Lossless(content: string) {
    (Written(content) == content <==> WritesBack(content)) && |Written(content)| <= |content|
  }

  lemma OneLineLossless(content: string)
    requires content != "" && OneLine(content)
    ensures Lossless(content)
  {
    RawIsLossless(content);
    LinesOne(content);
    WrittenOne(content, content);
    assert content[|content| - 1] in content;
  }

  lemma EndedLineIsLost(head: string)
    requires OneLine(head)
    ensures Lossless(head + "\n")
  {
    RawIsLossless(StripCr(head));
    LinesHead(head, "");
    assert head + "\n" + "" == head + "\n";
    WrittenOne(head + "\n", StripCr(head));
  }

  lemma HeadWritesBack(content: string, n: nat)
    requires n < |content| - 1 && content[n] == '\n' && OneLine(content[..n])
    ensures var head := content[..n];
      var written := Raw(ParseBlsLine(StripCr(head)));
      |written| <= |head| && (WritesBack(content) <==> written == head && WritesBack(content[n + 1..]))
  {
    HeadAndTail(content, n);
    WritesBackByLine(content, n);
    RawIsLossless(StripCr(content[..n]));
  }

  lemma HeadLossless(content: string, n: nat)
    requires n < |content| - 1 && content[n] == '\n' && OneLine(content[..n])
    requires Lossless(content[n + 1..])
    ensures Lossless(content)
  {
    var head, tail := content[..n], content[n + 1..];
    var a, b := Raw(ParseBlsLine(StripCr(head))), Written(tail);
    HeadWritesBack(content, n);
    SameParts(a, b, head, tail, WritesBack(content), WritesBack(tail));
    CutAtBreak(content, n);
    HeadAndTail(content, n);
  }

  /** A text is written back unchanged if and only if none of the three losses occurs in it. */
  lemma {:induction false} WrittenIsLossless(content: string)
    ensures Written(content) == content <==> WritesBack(content)
    ensures Lossless(content)
    decreases |content|
  {
    var n := IndexOf(content, '\n');
    if content == "" {
    } else if n == |content| {
      OneLineLossless(content);
    } else if n == |content| - 1 {
      EndedLineIsLost(content[..n]);
      assert content == content[..n] + "\n";
    } else {
      WrittenIsLossless(content[n + 1..]);
      HeadLossless(content, n);
    }
  }
}
