/**
 The header pass of `DocumentChunker` (`_split_by_headers` in
 `deepwiki/indexer.py`): the text is split into lines, a new segment opens at
 every ATX header line that has some line before it, and each segment is
 joined back with line feeds.
 */
module Headers {
  import opened Text

  /** Number of `#` characters at the front of `s`. */
  function LeadingHashes(s: string): (n: nat)
    ensures n <= |s|
    ensures forall i :: 0 <= i < n ==> s[i] == '#'
    ensures n < |s| ==> s[n] != '#'
  {
    if |s| == 0 || s[0] != '#' then 0 else 1 + LeadingHashes(s[1..])
  }

  /**
   An ATX header line: one to six `#`, a whitespace character, then at least
   one more character. Lines never contain a line feed (they come from
   `split("\n")`), so this is what `re.match(r"^#{1,6}\s+.+$", line)` accepts.
   */
  predicate IsHeader(line: string) {
    var k := LeadingHashes(line);
    1 <= k <= 6 && k + 2 <= |line| && IsSpace(line[k])
  }

  predicate AllHash(s: string) {
    forall i :: 0 <= i < |s| ==> s[i] == '#'
  }

  /** The header pattern read literally: `#{1,6}`, then `\s+`, then `.+` up to the end. */
  ghost predicate HeaderPattern(line: string) {
    exists k, j | 1 <= k <= 6 && k < j < |line| :: AllHash(line[..k]) && AllSpace(line[k..j])
  }

  lemma HeaderMatchesPattern(line: string)
    requires '\n' !in line
    ensures IsHeader(line) <==> HeaderPattern(line)
  {
    var k := LeadingHashes(line);
    if IsHeader(line) {
      assert AllHash(line[..k]) && AllSpace(line[k..k + 1]);
    }
    if HeaderPattern(line) {
      var k', j :| 1 <= k' <= 6 && k' < j < |line| && AllHash(line[..k']) && AllSpace(line[k'..j]);
      assert line[k'] == line[k'..j][0];
      assert IsSpace(line[k']);
      assert line[k'] != '#';
      assert forall i :: 0 <= i < k' ==> line[i] == line[..k'][i];
      assert k == k';
    }
  }

  lemma HeaderAcceptsExamples()
    ensures IsHeader("# A") && IsHeader("#  ") && IsHeader("#\tTitle")
  {
  }

  lemma HeaderSixHashesExample()
    ensures IsHeader("###### x")
  {
    assert LeadingHashes("###### x") == 6;
  }

  lemma HeaderRejectsExamples()
    ensures !IsHeader("# ") && !IsHeader("#x") && !IsHeader(" # x") && !IsHeader("")
  {
  }

  lemma HeaderSevenHashesExample()
    ensures !IsHeader("####### x")
  {
    assert LeadingHashes("####### x") == 7;
  }

  predicate GroupShaped(group: seq<string>, first: bool) {
    && |group| > 0
    && (!first ==> IsHeader(group[0]))
    && forall j :: 1 <= j < |group| ==> !IsHeader(group[j])
  }

  /** Every group is non-empty, starts with a header unless it is the first, and holds no other header. */
  predicate WellGrouped(groups: seq<seq<string>>) {
    forall g :: 0 <= g < |groups| ==> GroupShaped(groups[g], g == 0)
  }

  function Flatten(groups: seq<seq<string>>): seq<string> {
    if |groups| == 0 then [] else groups[0] + Flatten(groups[1..])
  }

  lemma FlattenAppend(a: seq<seq<string>>, b: seq<seq<string>>)
    ensures Flatten(a + b) == Flatten(a) + Flatten(b)
  {
    if |a| == 0 {
      assert a + b == b;
    } else {
      assert (a + b)[1..] == a[1..] + b;
    }
  }

  /** The loop of `_split_by_headers` over `lines`, with `done` the closed groups and `current` the open one. */
  function GroupLines(lines: seq<string>, done: seq<seq<string>>, current: seq<string>): seq<seq<string>>
    decreases |lines|
  {
    if |lines| == 0 then
      if |current| > 0 then done + [current] else done
    else if IsHeader(lines[0]) && |current| > 0 then
      GroupLines(lines[1..], done + [current], [lines[0]])
    else
      GroupLines(lines[1..], done, current + [lines[0]])
  }

  lemma WellGroupedAppend(done: seq<seq<string>>, current: seq<string>)
    requires WellGrouped(done)
    requires GroupShaped(current, |done| == 0)
    ensures WellGrouped(done + [current])
  {
    var r := done + [current];
    forall g | 0 <= g < |r| ensures GroupShaped(r[g], g == 0) {
      if g < |done| {
        assert r[g] == done[g];
      }
    }
  }

  /** Grouping keeps every group well shaped. */
  lemma {:induction false} GroupLinesWellGrouped(lines: seq<string>, done: seq<seq<string>>, current: seq<string>)
    requires WellGrouped(done)
    requires |current| == 0 ==> |done| == 0
    requires |current| > 0 ==> GroupShaped(current, |done| == 0)
    ensures WellGrouped(GroupLines(lines, done, current))
    decreases |lines|
  {
    if |lines| == 0 {
      if |current| > 0 {
        WellGroupedAppend(done, current);
      }
    } else if IsHeader(lines[0]) && |current| > 0 {
      WellGroupedAppend(done, current);
      GroupLinesWellGrouped(lines[1..], done + [current], [lines[0]]);
    } else {
      var cur := current + [lines[0]];
      assert GroupShaped(cur, |done| == 0);
      GroupLinesWellGrouped(lines[1..], done, cur);
    }
  }

  /** Grouping loses, adds and reorders no line. */
  lemma {:induction false} GroupLinesFlatten(lines: seq<string>, done: seq<seq<string>>, current: seq<string>)
    ensures Flatten(GroupLines(lines, done, current)) == Flatten(done) + current + lines
    decreases |lines|
  {
    if |lines| == 0 {
      if |current| > 0 {
        FlattenAppend(done, [current]);
        assert Flatten([current]) == current;
      }
    } else if IsHeader(lines[0]) && |current| > 0 {
      assert GroupLines(lines, done, current) == GroupLines(lines[1..], done + [current], [lines[0]]);
      GroupLinesFlatten(lines[1..], done + [current], [lines[0]]);
      FlattenAppend(done, [current]);
      assert Flatten([current]) == current;
      assert lines == [lines[0]] + lines[1..];
      assert (Flatten(done) + current) + [lines[0]] + lines[1..] == Flatten(done) + current + lines;
    } else {
      assert GroupLines(lines, done, current) == GroupLines(lines[1..], done, current + [lines[0]]);
      GroupLinesFlatten(lines[1..], done, current + [lines[0]]);
      assert lines == [lines[0]] + lines[1..];
      assert Flatten(done) + (current + [lines[0]]) + lines[1..] == Flatten(done) + current + lines;
    }
  }

  lemma GroupLinesShape(lines: seq<string>, done: seq<seq<string>>, current: seq<string>)
    requires WellGrouped(done)
    requires |current| == 0 ==> |done| == 0
    requires |current| > 0 ==> GroupShaped(current, |done| == 0)
    ensures WellGrouped(GroupLines(lines, done, current))
    ensures Flatten(GroupLines(lines, done, current)) == Flatten(done) + current + lines
  {
    GroupLinesWellGrouped(lines, done, current);
    GroupLinesFlatten(lines, done, current);
  }

  /** The first line of `s`: the part before its first line feed. */
  function FirstLine(s: string): string {
    Split(s, '\n')[0]
  }

  /** Lines of a header segment after its first one. */
  predicate SegmentShaped(segment: string, first: bool) {
    GroupShaped(Split(segment, '\n'), first)
  }

  function JoinEach(groups: seq<seq<string>>, sep: string): (r: seq<string>)
    ensures |r| == |groups|
    ensures forall i :: 0 <= i < |groups| ==> r[i] == Join(groups[i], sep)
  {
    seq(|groups|, i requires 0 <= i < |groups| => Join(groups[i], sep))
  }

  lemma {:induction false} JoinAppend(a: seq<string>, b: seq<string>, sep: string)
    requires |a| > 0 && |b| > 0
    ensures Join(a + b, sep) == Join(a, sep) + sep + Join(b, sep)
    decreases |a|
  {
    if |a| == 1 {
      assert (a + b)[1..] == b;
    } else {
      assert (a + b)[1..] == a[1..] + b;
      JoinAppend(a[1..], b, sep);
    }
  }

  lemma {:induction false} JoinFlatten(groups: seq<seq<string>>, sep: string)
    requires forall g :: 0 <= g < |groups| ==> |groups[g]| > 0
    ensures Join(JoinEach(groups, sep), sep) == Join(Flatten(groups), sep)
    decreases |groups|
  {
    if |groups| > 1 {
      JoinFlatten(groups[1..], sep);
      assert JoinEach(groups, sep)[1..] == JoinEach(groups[1..], sep);
      assert |Flatten(groups[1..])| > 0 by {
        assert Flatten(groups[1..]) == groups[1] + Flatten(groups[2..]);
      }
      JoinAppend(groups[0], Flatten(groups[1..]), sep);
    } else if |groups| == 1 {
      assert JoinEach(groups, sep) == [Join(groups[0], sep)];
      assert Flatten(groups) == groups[0] + Flatten([]);
      assert groups[0] + [] == groups[0];
    }
  }

  lemma {:induction false} FlattenNoNewline(groups: seq<seq<string>>, lines: seq<string>)
    requires Flatten(groups) == lines
    requires forall i :: 0 <= i < |lines| ==> '\n' !in lines[i]
    ensures forall g, j :: 0 <= g < |groups| && 0 <= j < |groups[g]| ==> '\n' !in groups[g][j]
    decreases |groups|
  {
    if |groups| > 0 {
      assert lines == groups[0] + Flatten(groups[1..]);
      assert forall j :: 0 <= j < |groups[0]| ==> groups[0][j] == lines[j];
      assert forall i :: 0 <= i < |Flatten(groups[1..])| ==> Flatten(groups[1..])[i] == lines[|groups[0]| + i];
      FlattenNoNewline(groups[1..], Flatten(groups[1..]));
      assert forall g :: 1 <= g < |groups| ==> groups[g] == groups[1..][g - 1];
    }
  }

  /** `_split_by_headers`: the header segments of `text`. */
  function SplitByHeaders(text: string): seq<string> {
    var chunks := JoinEach(GroupLines(Split(text, '\n'), [], []), "\n");
    if |chunks| > 0 then chunks else [text]
  }

  /**
   The header segments partition the text: joined with line feeds they give it
   back, each one after the first opens with a header line, no segment holds a
   header line anywhere else, and the first starts at the text's first line.
   */
  lemma SplitByHeadersSpec(text: string)
    ensures |SplitByHeaders(text)| >= 1
    ensures Join(SplitByHeaders(text), "\n") == text
    ensures forall k :: 0 <= k < |SplitByHeaders(text)| ==> SegmentShaped(SplitByHeaders(text)[k], k == 0)
    ensures FirstLine(SplitByHeaders(text)[0]) == FirstLine(text)
  {
    var lines := Split(text, '\n');
    var groups := GroupLines(lines, [], []);
    GroupLinesShape(lines, [], []);
    assert Flatten([]) == [];
    var chunks := JoinEach(groups, "\n");
    assert chunks == SplitByHeaders(text) by {
      assert |groups| >= 1;
    }
    FlattenNoNewline(groups, lines);
    forall k | 0 <= k < |groups| ensures Split(chunks[k], '\n') == groups[k] {
      SplitJoin(groups[k], '\n');
    }
    JoinFlatten(groups, "\n");
    assert lines[0] == groups[0][0] by {
      assert Flatten(groups) == groups[0] + Flatten(groups[1..]);
    }
  }

  /** The lines of a text built by joining newline-free lines. */
  lemma LinesOf(lines: seq<string>, text: string)
    requires |lines| >= 1 && Join(lines, "\n") == text
    requires forall i :: 0 <= i < |lines| ==> '\n' !in lines[i]
    ensures Split(text, '\n') == lines
  {
    SplitJoin(lines, '\n');
  }

  lemma ExampleGroups()
    ensures GroupLines(["# A", "foo bar", "# B", "baz"], [], []) == [["# A", "foo bar"], ["# B", "baz"]]
  {
    var l0 := ["# A", "foo bar", "# B", "baz"];
    var l1 := l0[1..];
    var l2 := l1[1..];
    var l3 := l2[1..];
    var a := ["# A", "foo bar"];
    var b := ["# B", "baz"];
    assert IsHeader(l0[0]) && !IsHeader(l1[0]) && IsHeader(l2[0]) && !IsHeader(l3[0]);
    assert [] + [l0[0]] == ["# A"];
    assert ["# A"] + [l1[0]] == a;
    assert [] + [a] == [a];
    assert ["# B"] + [l3[0]] == b;
    assert GroupLines(l0, [], []) == GroupLines(l1, [], ["# A"]);
    assert GroupLines(l1, [], ["# A"]) == GroupLines(l2, [], a);
    assert GroupLines(l2, [], a) == GroupLines(l3, [a], ["# B"]);
    assert GroupLines(l3, [a], ["# B"]) == GroupLines([], [a], b);
  }

  lemma ExampleLines()
    ensures Split("# A\nfoo bar\n# B\nbaz", '\n') == ["# A", "foo bar", "# B", "baz"]
  {
    assert Join(["# A", "foo bar", "# B", "baz"], "\n") == "# A\nfoo bar\n# B\nbaz";
    LinesOf(["# A", "foo bar", "# B", "baz"], "# A\nfoo bar\n# B\nbaz");
  }

  lemma ExampleJoins()
    ensures JoinEach([["# A", "foo bar"], ["# B", "baz"]], "\n") == ["# A\nfoo bar", "# B\nbaz"]
  {
    assert Join(["# A", "foo bar"], "\n") == "# A\nfoo bar";
    assert Join(["# B", "baz"], "\n") == "# B\nbaz";
  }

  lemma HeaderSegmentsExample()
    ensures SplitByHeaders("# A\nfoo bar\n# B\nbaz") == ["# A\nfoo bar", "# B\nbaz"]
  {
    ExampleLines();
    ExampleGroups();
    ExampleJoins();
  }

  lemma FirstLineLines()
    ensures Split("# A\n# B", '\n') == ["# A", "# B"]
  {
    assert Join(["# A", "# B"], "\n") == "# A\n# B";
    LinesOf(["# A", "# B"], "# A\n# B");
  }

  lemma FirstLineGroups()
    ensures GroupLines(["# A", "# B"], [], []) == [["# A"], ["# B"]]
  {
    var l0 := ["# A", "# B"];
    var l1 := l0[1..];
    assert IsHeader(l0[0]) && IsHeader(l1[0]);
    assert [] + [l0[0]] == ["# A"];
    assert [] + [["# A"]] == [["# A"]];
    assert GroupLines(l0, [], []) == GroupLines(l1, [], ["# A"]);
    assert GroupLines(l1, [], ["# A"]) == GroupLines([], [["# A"]], ["# B"]);
  }

  /** A header on the first line does not open a second segment; any later one does. */
  lemma HeaderFirstLineExample()
    ensures SplitByHeaders("# A\n# B") == ["# A", "# B"]
  {
    FirstLineLines();
    FirstLineGroups();
    assert JoinEach([["# A"], ["# B"]], "\n") == ["# A", "# B"];
  }

  lemma HeaderEmptyExample()
    ensures SplitByHeaders("") == [""]
  {
    assert Split("", '\n') == [""];
  }

  /** A text without line feeds is one segment. */
  lemma SingleLineSegment(text: string)
    requires '\n' !in text
    ensures SplitByHeaders(text) == [text]
  {
    LinesOf([text], text);
    assert [text][1..] == [];
    assert [] + [text] == [text];
    assert GroupLines([text], [], []) == [[text]];
    assert JoinEach([[text]], "\n") == [text];
  }
}
