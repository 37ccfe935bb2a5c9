/** The line filter that `getGitDiff` applies to the staged diff. The diff
    library hands back a list of segments, each an operation and a text;
    equal segments are skipped, the others are cut into lines at `\n`, hunk
    headers (`@@`) and file headers (`diff --git`) are dropped, and the rest
    is joined again with `\n`. */
module DiffFilter {
  import opened Strings

  /** The kind of a segment, as the diff library reports it. */
  datatype Op = Delete | Equal | Insert

  datatype Segment = Segment(op: Op, text: string)

  /** A line the filter drops. */
  predicate IsHeader(line: string) {
    StartsWith(line, "@@") || StartsWith(line, "diff --git")
  }

  /** The lines that are not headers, in their order. */
  function NonHeaderLines(lines: seq<string>): seq<string> {
    if lines == [] then []
    else (if IsHeader(lines[0]) then [] else [lines[0]]) + NonHeaderLines(lines[1..])
  }

  /** A line is kept exactly when it is one of the lines and not a header. */
  lemma {:induction false} NonHeaderLinesMember(lines: seq<string>, l: string)
    ensures l in NonHeaderLines(lines) <==> l in lines && !IsHeader(l)
  {
    if lines != [] {
      NonHeaderLinesMember(lines[1..], l);
      assert lines == [lines[0]] + lines[1..];
    }
  }

  /** The lines one segment contributes. */
  function SegmentLines(seg: Segment): seq<string> {
    if seg.op == Equal then [] else NonHeaderLines(Split(seg.text, '\n'))
  }

  /** The lines the filter collects from all the segments, in order. */
  function KeptLines(segs: seq<Segment>): seq<string> {
    if segs == [] then [] else SegmentLines(segs[0]) + KeptLines(segs[1..])
  }

  /** The text `getGitDiff` returns for the segments. */
  function FilterDiff(segs: seq<Segment>): string {
    Join(KeptLines(segs), "\n")
  }

  /** The filter loop of `getGitDiff`: the segments are visited in order and
      the kept lines of each are appended. */
  method CollectDiff(segs: seq<Segment>) returns (diff: string)
    ensures diff == FilterDiff(segs)
  {
    var lines: seq<string> := [];
    var i := 0;
    while i < |segs|
      invariant 0 <= i <= |segs|
      invariant lines == KeptLines(segs[..i])
    {
      KeptLinesAppend(segs[..i], [segs[i]]);
      assert segs[..i + 1] == segs[..i] + [segs[i]];
      assert KeptLines([segs[i]]) == SegmentLines(segs[i]) by {
        assert [segs[i]][1..] == [];
      }
      if segs[i].op != Equal {
        lines := CollectLines(lines, Split(segs[i].text, '\n'));
      }
      i := i + 1;
    }
    assert segs[..i] == segs;
    diff := Join(lines, "\n");
  }

  /** The inner loop of `getGitDiff`: the lines of one segment that are not
      headers are appended, in order. */
  method CollectLines(acc: seq<string>, parts: seq<string>) returns (lines: seq<string>)
    ensures lines == acc + NonHeaderLines(parts)
  {
    lines := acc;
    var j := 0;
    while j < |parts|
      invariant 0 <= j <= |parts|
      invariant lines == acc + NonHeaderLines(parts[..j])
    {
      NonHeaderLinesAppend(parts[..j], [parts[j]]);
      assert parts[..j + 1] == parts[..j] + [parts[j]];
      if !IsHeader(parts[j]) {
        lines := lines + [parts[j]];
      }
      j := j + 1;
    }
    assert parts[..j] == parts;
  }

  lemma {:induction false} NonHeaderLinesAppend(a: seq<string>, b: seq<string>)
    ensures NonHeaderLines(a + b) == NonHeaderLines(a) + NonHeaderLines(b)
  {
    if a != [] {
      assert (a + b)[1..] == a[1..] + b;
      NonHeaderLinesAppend(a[1..], b);
    } else {
      assert a + b == b;
    }
  }

  /** The filter works segment by segment: the lines of a concatenation are
      the lines of the parts, in order. */
  lemma {:induction false} KeptLinesAppend(s1: seq<Segment>, s2: seq<Segment>)
    ensures KeptLines(s1 + s2) == KeptLines(s1) + KeptLines(s2)
  {
    if s1 != [] {
      assert (s1 + s2)[1..] == s1[1..] + s2;
      KeptLinesAppend(s1[1..], s2);
    } else {
      assert s1 + s2 == s2;
    }
  }

  /** A line is collected exactly when it is a line of some segment that is
      not an equal segment, and is not a header. */
  lemma {:induction false} KeptLinesMember(segs: seq<Segment>, l: string)
    ensures l in KeptLines(segs) <==>
      exists i | 0 <= i < |segs| :: segs[i].op != Equal && l in Split(segs[i].text, '\n') && !IsHeader(l)
  {
    if segs != [] {
      KeptLinesMember(segs[1..], l);
      if segs[0].op != Equal {
        NonHeaderLinesMember(Split(segs[0].text, '\n'), l);
      }
      if l in KeptLines(segs[1..]) {
        var i :| 0 <= i < |segs[1..]| && segs[1..][i].op != Equal && l in Split(segs[1..][i].text, '\n');
        assert segs[i + 1] == segs[1..][i];
      }
      if exists i | 0 <= i < |segs| :: segs[i].op != Equal && l in Split(segs[i].text, '\n') && !IsHeader(l) {
        var i :| 0 <= i < |segs| && segs[i].op != Equal && l in Split(segs[i].text, '\n') && !IsHeader(l);
        if i > 0 {
          assert segs[1..][i - 1] == segs[i];
        }
      }
    }
  }

  /** Splitting the result at `\n` gives back the collected lines, whenever
      there is at least one. */
  lemma LinesRecovered(segs: seq<Segment>)
    requires KeptLines(segs) != []
    ensures Split(FilterDiff(segs), '\n') == KeptLines(segs)
  {
    forall l | l in KeptLines(segs)
      ensures '\n' !in l
    {
      KeptLinesMember(segs, l);
    }
    SplitJoin(KeptLines(segs), '\n');
  }

  /** An equal segment contributes nothing, wherever it sits. */
  lemma EqualContributesNothing(s1: seq<Segment>, text: string, s2: seq<Segment>)
    ensures FilterDiff(s1 + [Segment(Equal, text)] + s2) == FilterDiff(s1 + s2)
  {
    var e := [Segment(Equal, text)];
    assert KeptLines(e) == [] by {
      assert e[1..] == [];
    }
    KeptLinesAppend(s1, e);
    assert KeptLines(s1 + e) == KeptLines(s1);
    KeptLinesAppend(s1 + e, s2);
    KeptLinesAppend(s1, s2);
    assert KeptLines(s1 + e + s2) == KeptLines(s1 + s2);
  }

  /** A segment without header lines comes through whole, empty lines
      included. */
  lemma HeaderFreeSegment(op: Op, text: string)
    requires op != Equal
    requires forall l | l in Split(text, '\n') :: !IsHeader(l)
    ensures FilterDiff([Segment(op, text)]) == text
  {
    var seg := Segment(op, text);
    NonHeaderLinesNoHeaders(Split(text, '\n'));
    assert [seg][1..] == [];
    assert KeptLines([seg]) == Split(text, '\n');
    JoinSplit(text, '\n');
  }

  lemma {:induction false} NonHeaderLinesNoHeaders(lines: seq<string>)
    requires forall l | l in lines :: !IsHeader(l)
    ensures NonHeaderLines(lines) == lines
  {
    if lines != [] {
      assert lines[0] in lines;
      assert forall l | l in lines[1..] :: l in lines;
      NonHeaderLinesNoHeaders(lines[1..]);
    }
  }

  /** Input made only of header lines (or of equal segments) yields the
      empty text. */
  lemma HeadersOnly(segs: seq<Segment>)
    requires forall i | 0 <= i < |segs| :: segs[i].op != Equal ==>
      forall l | l in Split(segs[i].text, '\n') :: IsHeader(l)
    ensures FilterDiff(segs) == ""
  {
    if KeptLines(segs) != [] {
      var l := KeptLines(segs)[0];
      KeptLinesMember(segs, l);
    }
  }

  /** An inserted hunk: the hunk header is dropped and the blank line between
      the two added lines survives. */
  lemma ExampleHunk(header: string, body: string, text: string)
    requires header == "@@ -1 +1,3 @@"
    requires body == "+a\n\n+b"
    requires text == header + "\n" + body
    ensures FilterDiff([Segment(Insert, text)]) == body
  {
    var seg := Segment(Insert, text);
    assert text == header + ['\n'] + body;
    assert '\n' !in header;
    SplitAfterPiece(header, body, '\n');
    assert IsHeader(header);
    var rest := Split(body, '\n');
    ExampleHunkBody(body);
    NonHeaderLinesNoHeaders(rest);
    assert NonHeaderLines(Split(text, '\n')) == rest;
    assert [seg][1..] == [];
    assert KeptLines([seg]) == rest;
    JoinSplit(body, '\n');
  }

  lemma ExampleHunkBody(body: string)
    requires body == "+a\n\n+b"
    ensures Split(body, '\n') == ["+a", "", "+b"]
    ensures forall l | l in Split(body, '\n') :: !IsHeader(l)
  {
    var x, y, z := "+a", "", "+b";
    assert body == x + ['\n'] + (y + ['\n'] + z);
    SplitAfterPiece(x, y + ['\n'] + z, '\n');
    SplitAfterPiece(y, z, '\n');
    SplitNoSep(z, '\n');
  }
}
