/**
 * The diff result builder of `lib/diff/parser.ts`: it expands the aligner's
 * runs into individually addressed lines, counting left (original) and
 * right (modified) line numbers and accumulating statistics.
 */
module DiffParser {
  import opened Text
  import opened DiffTypes

  /**
   * `splitIntoLines`: split on newlines and drop one trailing empty part.
   * `SplitIntoLinesWritesBack` states what the lines are.
   */
  function SplitIntoLines(value: string): (lines: seq<string>)
    ensures NoNewLines(lines)
    ensures var parts := Split(value);
            || lines == parts
            || (lines + [""] == parts)
  {
    var parts := Split(value);
    SplitJoins(value);
    assert forall k :: 0 <= k < |parts| - 1 ==> parts[..|parts| - 1][k] == parts[k];
    if parts[|parts| - 1] == "" then parts[..|parts| - 1] else parts
  }

  /**
   * The lines hold no newline, and writing them out again, each followed by
   * a newline, gives back the value, plus a final newline if the value
   * lacked one.
   */
  lemma SplitIntoLinesWritesBack(value: string)
    ensures NoNewLines(SplitIntoLines(value))
    ensures Terminated(SplitIntoLines(value)) ==
            if value == "" || value[|value| - 1] == NewLine then value else value + [NewLine]
  {
    var parts := Split(value);
    var init := parts[..|parts| - 1];
    SplitJoins(value);
    assert NoNewLines(init) by {
      assert forall k :: 0 <= k < |init| ==> init[k] == parts[k];
    }
    if parts[|parts| - 1] == "" {
      if |parts| > 1 {
        assert parts == init + [""];
        TerminatedIsJoinPlusNewLine(init);
      }
    } else {
      TerminatedIsJoinPlusNewLine(parts);
      JoinEndsWithLastPart(parts);
    }
  }

  /** An empty value yields no line at all. */
  lemma SplitIntoLinesEmpty()
    ensures SplitIntoLines("") == []
  {
    SplitIntoLinesWritesBack("");
    if SplitIntoLines("") != [] {
      TerminatedNonEmpty(SplitIntoLines(""));
    }
  }

  /**
   * The contract determines the lines: newline-free lines whose written-out
   * form is a newline-terminated value are exactly what the value splits into.
   */
  lemma SplitIntoLinesUnique(value: string, lines: seq<string>)
    requires NoNewLines(lines)
    requires Terminated(lines) == value
    ensures SplitIntoLines(value) == lines
  {
    var split := SplitIntoLines(value);
    SplitIntoLinesWritesBack(value);
    if lines != [] {
      TerminatedNonEmpty(lines);
    }
    assert Terminated(split) == value;
    TerminatedInjective(split, lines);
  }

  /**
   * A trailing newline leaves no empty last line: `"a\nb\n"` yields
   * `["a", "b"]`; a genuinely empty last line is kept: `"a\n\n"` yields
   * `["a", ""]`.
   */
  lemma SplitIntoLinesExamples()
    ensures SplitIntoLines("a\nb\n") == ["a", "b"]
    ensures SplitIntoLines("a\n\n") == ["a", ""]
  {
    assert "a\nb\n" == "a" + [NewLine] + "b" + [NewLine];
    TwoLines("a", "b");
    assert "a\n\n" == "a" + [NewLine] + "" + [NewLine];
    TwoLines("a", "");
  }

  // ---------------------------------------------------------------------
  // Views of the runs and of the result
  // ---------------------------------------------------------------------

  /** How a run is treated: `removed` is tested first, then `added`; anything else is unchanged. */
  function KindOf(change: Change): LineType
  {
    if change.removed then Removed else if change.added then Added else Unchanged
  }

  /** The lines of one run together with their classification. */
  datatype RunGroup = RunGroup(lines: seq<string>, kind: LineType)

  /** The runs that yield at least one line, in order, each as its lines and classification. */
  function RunGroups(changes: seq<Change>): (groups: seq<RunGroup>)
    ensures forall q :: 0 <= q < |groups| ==> |groups[q].lines| > 0
  {
    if changes == [] then []
    else
      var c := changes[|changes| - 1];
      var lines := SplitIntoLines(c.value);
      RunGroups(changes[..|changes| - 1]) + if lines == [] then [] else [RunGroup(lines, KindOf(c))]
  }

  /** The lines of the original text: those of every run that is not an addition. */
  function OldRunLines(changes: seq<Change>): seq<string>
  {
    if changes == [] then []
    else
      var c := changes[|changes| - 1];
      OldRunLines(changes[..|changes| - 1]) + if KindOf(c) != Added then SplitIntoLines(c.value) else []
  }

  /** The lines of the modified text: those of every run that is not a removal. */
  function NewRunLines(changes: seq<Change>): seq<string>
  {
    if changes == [] then []
    else
      var c := changes[|changes| - 1];
      NewRunLines(changes[..|changes| - 1]) + if KindOf(c) != Removed then SplitIntoLines(c.value) else []
  }

  /** All lines of all chunks, in order. */
  function Flatten(chunks: seq<DiffChunk>): seq<DiffLine>
  {
    if chunks == [] then [] else Flatten(chunks[..|chunks| - 1]) + chunks[|chunks| - 1].lines
  }

  /** The contents of the lines that carry a left number (removed and unchanged lines). */
  function OldSide(lines: seq<DiffLine>): seq<string>
  {
    if lines == [] then []
    else
      var x := lines[|lines| - 1];
      OldSide(lines[..|lines| - 1]) + if x.Left().Some? then [x.content] else []
  }

  /** The contents of the lines that carry a right number (added and unchanged lines). */
  function NewSide(lines: seq<DiffLine>): seq<string>
  {
    if lines == [] then []
    else
      var x := lines[|lines| - 1];
      NewSide(lines[..|lines| - 1]) + if x.Right().Some? then [x.content] else []
  }

  /** The number of lines of one classification. */
  function CountOf(lines: seq<DiffLine>, t: LineType): nat
  {
    if lines == [] then 0
    else CountOf(lines[..|lines| - 1], t) + if lines[|lines| - 1].Type() == t then 1 else 0
  }

  /**
   * The line at position `p` is numbered by the counters: its left number is
   * one more than the number of left-numbered lines before it, and likewise
   * on the right.
   */
  ghost predicate NumberedAt(lines: seq<DiffLine>, p: nat)
    requires p < |lines|
  {
    && (lines[p].Left().Some? ==> lines[p].left == |OldSide(lines[..p])| + 1)
    && (lines[p].Right().Some? ==> lines[p].right == |NewSide(lines[..p])| + 1)
  }

  ghost predicate Numbered(lines: seq<DiffLine>)
  {
    forall p :: 0 <= p < |lines| ==> NumberedAt(lines, p)
  }

  /**
   * Every left number is the 1-based position of the line's content in
   * `oldLines`, and every right number its position in `newLines`.
   */
  predicate Addresses(lines: seq<DiffLine>, oldLines: seq<string>, newLines: seq<string>)
  {
    && (forall p :: 0 <= p < |lines| && lines[p].Left().Some? ==>
          1 <= lines[p].left <= |oldLines| && oldLines[lines[p].left - 1] == lines[p].content)
    && (forall p :: 0 <= p < |lines| && lines[p].Right().Some? ==>
          1 <= lines[p].right <= |newLines| && newLines[lines[p].right - 1] == lines[p].content)
  }

  /** A chunk expands its run: the same lines, in order, all of the run's classification. */
  predicate ChunkFollows(chunk: DiffChunk, group: RunGroup)
  {
    && |chunk.lines| == |group.lines|
    && (forall t :: 0 <= t < |group.lines| ==>
          chunk.lines[t].content == group.lines[t] && chunk.lines[t].Type() == group.kind)
    && chunk.isUnchanged == (group.kind == Unchanged)
  }

  predicate ChunksFollow(chunks: seq<DiffChunk>, groups: seq<RunGroup>)
  {
    |chunks| == |groups| && forall q :: 0 <= q < |chunks| ==> ChunkFollows(chunks[q], groups[q])
  }

  /** The statistics count the lines so far; the total is only summed at the end. */
  predicate Tallied(stats: DiffStats, lines: seq<DiffLine>)
  {
    && stats.added == CountOf(lines, Added)
    && stats.removed == CountOf(lines, Removed)
    && stats.unchangedCount == CountOf(lines, Unchanged)
    && stats.total == 0
  }

  /**
   * The state of the builder after emitting `lines`: they are numbered by the
   * counters, the counters are one past the sizes of the two sides, and the
   * statistics count the lines.
   */
  ghost predicate Built(lines: seq<DiffLine>, stats: DiffStats, left: nat, right: nat)
  {
    && Numbered(lines)
    && left == |OldSide(lines)| + 1
    && right == |NewSide(lines)| + 1
    && Tallied(stats, lines)
  }

  // ---------------------------------------------------------------------
  // The builder
  // ---------------------------------------------------------------------

  /** The line of a classification, carrying the counters its classification uses. */
  function LineFor(kind: LineType, content: string, left: nat, right: nat): (line: DiffLine)
    ensures line.Type() == kind && line.content == content
    ensures line.Left().Some? ==> line.left == left
    ensures line.Right().Some? ==> line.right == right
  {
    match kind
    case Added => AddedLine(content, right)
    case Removed => RemovedLine(content, left)
    case Unchanged => UnchangedLine(content, left, right)
  }

  /** The left counter after `n` lines of a classification: only removed and unchanged lines advance it. */
  function NextLeft(kind: LineType, left: nat, n: nat): nat
  {
    if kind != Added then left + n else left
  }

  /** The right counter after `n` lines of a classification: only added and unchanged lines advance it. */
  function NextRight(kind: LineType, right: nat, n: nat): nat
  {
    if kind != Removed then right + n else right
  }

  /** The statistics after `n` more lines of a classification. */
  function Tally(stats: DiffStats, kind: LineType, n: nat): DiffStats
  {
    match kind
    case Added => stats.(added := stats.added + n)
    case Removed => stats.(removed := stats.removed + n)
    case Unchanged => stats.(unchangedCount := stats.unchangedCount + n)
  }

  /** The lines one run expands into, numbered from the given counters. */
  function Expand(lines: seq<string>, kind: LineType, left: nat, right: nat): seq<DiffLine>
  {
    if lines == [] then []
    else
      var n := |lines| - 1;
      Expand(lines[..n], kind, left, right) + [LineFor(kind, lines[n], NextLeft(kind, left, n), NextRight(kind, right, n))]
  }

  /** Expanding one more line of a run appends that line, numbered by the advanced counters. */
  lemma ExpandNext(lines: seq<string>, t: nat, kind: LineType, left: nat, right: nat)
    requires t < |lines|
    ensures Expand(lines[..t + 1], kind, left, right) ==
            Expand(lines[..t], kind, left, right) + [LineFor(kind, lines[t], NextLeft(kind, left, t), NextRight(kind, right, t))]
  {
    assert lines[..t + 1][..t] == lines[..t];
  }

  /**
   * One run's lines, numbered as its classification says: a removed run takes
   * consecutive left numbers from the left counter and no right number, an
   * added run consecutive right numbers and no left number, an unchanged run
   * both, in lockstep.
   */
  lemma {:induction false} ExpandNumbering(lines: seq<string>, kind: LineType, left: nat, right: nat)
    ensures var e := Expand(lines, kind, left, right);
            && |e| == |lines|
            && (kind == Removed ==> forall t :: 0 <= t < |lines| ==> e[t] == RemovedLine(lines[t], left + t))
            && (kind == Added ==> forall t :: 0 <= t < |lines| ==> e[t] == AddedLine(lines[t], right + t))
            && (kind == Unchanged ==> forall t :: 0 <= t < |lines| ==> e[t] == UnchangedLine(lines[t], left + t, right + t))
  {
    if lines != [] {
      var n := |lines| - 1;
      ExpandNumbering(lines[..n], kind, left, right);
      assert forall t :: 0 <= t < n ==> lines[..n][t] == lines[t];
    }
  }

  /** The builder's loop state: the chunks so far, the statistics and the two counters. */
  datatype BuildState = BuildState(chunks: seq<DiffChunk>, stats: DiffStats, left: nat, right: nat)

  /** The loop state after the given runs. */
  function Walk(changes: seq<Change>): (s: BuildState)
    ensures s.stats.total == 0
    ensures s.left == 1 + s.stats.removed + s.stats.unchangedCount
    ensures s.right == 1 + s.stats.added + s.stats.unchangedCount
  {
    if changes == [] then BuildState([], DiffStats(0, 0, 0, 0), 1, 1)
    else
      var s := Walk(changes[..|changes| - 1]);
      var c := changes[|changes| - 1];
      var lines := SplitIntoLines(c.value);
      var kind := KindOf(c);
      var expanded := Expand(lines, kind, s.left, s.right);
      BuildState(
        if |expanded| > 0 then s.chunks + [DiffChunk(expanded, !c.added && !c.removed)] else s.chunks,
        Tally(s.stats, kind, |lines|),
        NextLeft(kind, s.left, |lines|),
        NextRight(kind, s.right, |lines|))
  }

  /** `parseDiffChanges` as a function of the runs: the walk, the total and the two derived counts. */
  function Parse(changes: seq<Change>): (r: DiffResult)
    ensures r.stats.total == r.stats.added + r.stats.removed + r.stats.unchangedCount
    ensures r.originalLineCount + 1 == Walk(changes).left
    ensures r.modifiedLineCount + 1 == Walk(changes).right
  {
    var s := Walk(changes);
    DiffResult(
      s.chunks,
      s.stats.(total := s.stats.added + s.stats.removed + s.stats.unchangedCount),
      s.stats.removed + s.stats.unchangedCount,
      s.stats.added + s.stats.unchangedCount)
  }

  /**
   * The body of the outer loop of `parseDiffChanges` for one run whose value
   * splits into `lines`: the lines, exploded by the inner loop of its classification, with the counters and
   * statistics advanced once per line.
   */
  method ExplodeChange(change: Change, lines: seq<string>, leftLineNumber0: nat, rightLineNumber0: nat, stats0: DiffStats)
    returns (diffLines: seq<DiffLine>, leftLineNumber: nat, rightLineNumber: nat, stats: DiffStats)
    ensures var kind := KindOf(change);
            && diffLines == Expand(lines, kind, leftLineNumber0, rightLineNumber0)
            && leftLineNumber == NextLeft(kind, leftLineNumber0, |lines|)
            && rightLineNumber == NextRight(kind, rightLineNumber0, |lines|)
            && stats == Tally(stats0, kind, |lines|)
  {
    var kind := KindOf(change);
    diffLines := [];
    leftLineNumber, rightLineNumber, stats := leftLineNumber0, rightLineNumber0, stats0;

    if change.removed {
      for t := 0 to |lines|
        invariant diffLines == Expand(lines[..t], kind, leftLineNumber0, rightLineNumber0)
        invariant leftLineNumber == leftLineNumber0 + t && rightLineNumber == rightLineNumber0
        invariant stats == Tally(stats0, kind, t)
      {
        ExpandNext(lines, t, kind, leftLineNumber0, rightLineNumber0);
        diffLines := diffLines + [RemovedLine(lines[t], leftLineNumber)];
        leftLineNumber := leftLineNumber + 1;
        stats := stats.(removed := stats.removed + 1);
      }
    } else if change.added {
      for t := 0 to |lines|
        invariant diffLines == Expand(lines[..t], kind, leftLineNumber0, rightLineNumber0)
        invariant leftLineNumber == leftLineNumber0 && rightLineNumber == rightLineNumber0 + t
        invariant stats == Tally(stats0, kind, t)
      {
        ExpandNext(lines, t, kind, leftLineNumber0, rightLineNumber0);
        diffLines := diffLines + [AddedLine(lines[t], rightLineNumber)];
        rightLineNumber := rightLineNumber + 1;
        stats := stats.(added := stats.added + 1);
      }
    } else {
      for t := 0 to |lines|
        invariant diffLines == Expand(lines[..t], kind, leftLineNumber0, rightLineNumber0)
        invariant leftLineNumber == leftLineNumber0 + t && rightLineNumber == rightLineNumber0 + t
        invariant stats == Tally(stats0, kind, t)
      {
        ExpandNext(lines, t, kind, leftLineNumber0, rightLineNumber0);
        diffLines := diffLines + [UnchangedLine(lines[t], leftLineNumber, rightLineNumber)];
        leftLineNumber := leftLineNumber + 1;
        rightLineNumber := rightLineNumber + 1;
        stats := stats.(unchangedCount := stats.unchangedCount + 1);
      }
    }
    assert lines[..|lines|] == lines;
  }

  /**
   * `parseDiffChanges`, step by step as in the source: one pass over the
   * runs, each exploded into lines with the counters bumped per line, a
   * chunk pushed for each run that yields lines, the total summed at the end.
   * `ParseChunks`, `ParseReconstructs`, `ParseStats` and `ParseLineNumbers`
   * state what the result is.
   */
  method ParseDiffChanges(changes: seq<Change>) returns (r: DiffResult)
    ensures r == Parse(changes)
  {
    var chunks: seq<DiffChunk> := [];
    var stats := DiffStats(0, 0, 0, 0);
    var leftLineNumber: nat := 1;
    var rightLineNumber: nat := 1;

    for c := 0 to |changes|
      invariant BuildState(chunks, stats, leftLineNumber, rightLineNumber) == Walk(changes[..c])
    {
      var change := changes[c];
      var lines := SplitIntoLines(change.value);
      var diffLines;
      diffLines, leftLineNumber, rightLineNumber, stats := ExplodeChange(change, lines, leftLineNumber, rightLineNumber, stats);
      assert changes[..c + 1][..c] == changes[..c];
      if |diffLines| > 0 {
        chunks := chunks + [DiffChunk(diffLines, !change.added && !change.removed)];
      }
    }

    stats := stats.(total := stats.added + stats.removed + stats.unchangedCount);
    assert changes[..|changes|] == changes;
    r := DiffResult(chunks, stats, stats.removed + stats.unchangedCount, stats.added + stats.unchangedCount);
  }

  // ---------------------------------------------------------------------
  // Lemmas
  // ---------------------------------------------------------------------

  /**
   * The chunks of `parseDiffChanges` expand, in order, the runs that yield at
   * least one line, and every line is numbered by the two counters.
   */
  lemma ParseChunks(changes: seq<Change>)
    ensures var r := Parse(changes);
            && ChunksFollow(r.chunks, RunGroups(changes))
            && (forall q :: 0 <= q < |r.chunks| ==> |r.chunks[q].lines| > 0)
            && Numbered(Flatten(r.chunks))
  {
    WalkInvariant(changes);
    var groups := RunGroups(changes);
    assert forall q :: 0 <= q < |groups| ==> |groups[q].lines| > 0;
  }

  /**
   * Reconstruction through `parseDiffChanges`: the removed and unchanged
   * lines are the original lines, the added and unchanged lines the
   * modified ones.
   */
  lemma ParseReconstructs(changes: seq<Change>)
    ensures var all := Flatten(Parse(changes).chunks);
            OldSide(all) == OldRunLines(changes) && NewSide(all) == NewRunLines(changes)
  {
    WalkInvariant(changes);
    Reconstruction(Walk(changes).chunks, changes);
  }

  /**
   * The statistics of `parseDiffChanges` count the lines of each
   * classification and sum to the total, and the two line counts are the
   * sizes of the original and the modified lines.
   */
  lemma ParseStats(changes: seq<Change>)
    ensures var r := Parse(changes);
            var all := Flatten(r.chunks);
            && r.stats.added == CountOf(all, Added)
            && r.stats.removed == CountOf(all, Removed)
            && r.stats.unchangedCount == CountOf(all, Unchanged)
            && r.stats.total == r.stats.added + r.stats.removed + r.stats.unchangedCount == |all|
            && r.originalLineCount == r.stats.removed + r.stats.unchangedCount == |OldRunLines(changes)|
            && r.modifiedLineCount == r.stats.added + r.stats.unchangedCount == |NewRunLines(changes)|
  {
    var s := Walk(changes);
    WalkInvariant(changes);
    assert Tallied(s.stats, Flatten(s.chunks));
    SideCounts(Flatten(s.chunks));
    ParseReconstructs(changes);
  }

  /**
   * Every left (right) number of `parseDiffChanges` is the 1-based position,
   * in the original (modified) lines, of the content it is attached to.
   */
  lemma ParseLineNumbers(changes: seq<Change>)
    ensures Addresses(Flatten(Parse(changes).chunks), OldRunLines(changes), NewRunLines(changes))
  {
    var s := Walk(changes);
    var all := Flatten(s.chunks);
    assert Numbered(all) && OldSide(all) == OldRunLines(changes) && NewSide(all) == NewRunLines(changes) by {
      WalkInvariant(changes);
      Reconstruction(s.chunks, changes);
    }
    LineNumbersAddressSides(all);
    assert Parse(changes).chunks == s.chunks;
  }

  /** The loop invariant of the builder, on the functional walk. */
  lemma {:induction false} WalkInvariant(changes: seq<Change>)
    ensures ChunksFollow(Walk(changes).chunks, RunGroups(changes))
    ensures var s := Walk(changes); Built(Flatten(s.chunks), s.stats, s.left, s.right)
  {
    if changes != [] {
      var prefix := changes[..|changes| - 1];
      var s := Walk(prefix);
      var c := changes[|changes| - 1];
      var lines := SplitIntoLines(c.value);
      var kind := KindOf(c);
      var expanded := Expand(lines, kind, s.left, s.right);
      var next := BuildState(
        if |expanded| > 0 then s.chunks + [DiffChunk(expanded, !c.added && !c.removed)] else s.chunks,
        Tally(s.stats, kind, |lines|), NextLeft(kind, s.left, |lines|), NextRight(kind, s.right, |lines|));
      assert Walk(changes) == next;
      WalkInvariant(prefix);
      ExpandBuilt(Flatten(s.chunks), s.stats, s.left, s.right, lines, kind);
      ExpandFollows(lines, kind, s.left, s.right);
      if |expanded| > 0 {
        var chunk := DiffChunk(expanded, !c.added && !c.removed);
        assert (s.chunks + [chunk])[..|s.chunks|] == s.chunks;
        ChunksFollowSnoc(s.chunks, RunGroups(prefix), chunk, RunGroup(lines, kind));
      } else {
        assert Flatten(s.chunks) + expanded == Flatten(s.chunks);
      }
    }
  }

  /** A run expands into its own lines, in order, all of its classification. */
  lemma {:induction false} ExpandFollows(lines: seq<string>, kind: LineType, left: nat, right: nat)
    ensures ChunkFollows(DiffChunk(Expand(lines, kind, left, right), kind == Unchanged), RunGroup(lines, kind))
  {
    if lines != [] {
      ExpandFollows(lines[..|lines| - 1], kind, left, right);
    }
  }

  /** Expanding a run keeps the builder's state, with the counters and statistics advanced by its lines. */
  lemma {:induction false} ExpandBuilt(base: seq<DiffLine>, stats: DiffStats, left: nat, right: nat,
                                       lines: seq<string>, kind: LineType)
    requires Built(base, stats, left, right)
    ensures Built(base + Expand(lines, kind, left, right), Tally(stats, kind, |lines|),
                  NextLeft(kind, left, |lines|), NextRight(kind, right, |lines|))
  {
    if lines == [] {
      assert base + [] == base;
    } else {
      var n := |lines| - 1;
      var init := Expand(lines[..n], kind, left, right);
      var line := LineFor(kind, lines[n], NextLeft(kind, left, n), NextRight(kind, right, n));
      ExpandBuilt(base, stats, left, right, lines[..n], kind);
      Step(base + init, Tally(stats, kind, n), NextLeft(kind, left, n), NextRight(kind, right, n), line);
      assert base + (init + [line]) == base + init + [line];
    }
  }

  /** Emitting one line numbered by the current counters keeps the builder's state. */
  lemma Step(lines: seq<DiffLine>, stats: DiffStats, left: nat, right: nat, x: DiffLine)
    requires Built(lines, stats, left, right)
    requires x.Left().Some? ==> x.left == left
    requires x.Right().Some? ==> x.right == right
    ensures Built(lines + [x], Tally(stats, x.Type(), 1),
                  if x.Left().Some? then left + 1 else left,
                  if x.Right().Some? then right + 1 else right)
  {
    Snoc(lines, x);
    var l := lines + [x];
    assert Numbered(l);
    assert Tallied(Tally(stats, x.Type(), 1), l);
  }

  lemma ChunksFollowSnoc(chunks: seq<DiffChunk>, groups: seq<RunGroup>, chunk: DiffChunk, group: RunGroup)
    requires ChunksFollow(chunks, groups) && ChunkFollows(chunk, group)
    ensures ChunksFollow(chunks + [chunk], groups + [group])
  {
    forall q | 0 <= q < |chunks| + 1
      ensures ChunkFollows((chunks + [chunk])[q], (groups + [group])[q])
    {
      if q < |chunks| {
        assert (chunks + [chunk])[q] == chunks[q];
        assert (groups + [group])[q] == groups[q];
      }
    }
  }

  /** Appending one line: how the two sides, the counts and the numbering change. */
  lemma Snoc(lines: seq<DiffLine>, x: DiffLine)
    ensures OldSide(lines + [x]) == OldSide(lines) + if x.Left().Some? then [x.content] else []
    ensures NewSide(lines + [x]) == NewSide(lines) + if x.Right().Some? then [x.content] else []
    ensures forall t :: CountOf(lines + [x], t) == CountOf(lines, t) + if x.Type() == t then 1 else 0
    ensures Numbered(lines) ==>
              (Numbered(lines + [x]) <==>
                 && (x.Left().Some? ==> x.left == |OldSide(lines)| + 1)
                 && (x.Right().Some? ==> x.right == |NewSide(lines)| + 1))
  {
    var l := lines + [x];
    assert l[..|lines|] == lines;
    forall p | 0 <= p < |lines|
      ensures l[..p] == lines[..p]
    {
    }
    if Numbered(lines) {
      assert NumberedAt(l, |lines|) ==>
               && (x.Left().Some? ==> x.left == |OldSide(lines)| + 1)
               && (x.Right().Some? ==> x.right == |NewSide(lines)| + 1);
      assert forall p :: 0 <= p < |lines| ==> (NumberedAt(l, p) <==> NumberedAt(lines, p));
    }
  }

  /** The sides of a concatenation are the concatenations of the sides. */
  lemma {:induction false} SidesAppend(a: seq<DiffLine>, b: seq<DiffLine>)
    ensures OldSide(a + b) == OldSide(a) + OldSide(b)
    ensures NewSide(a + b) == NewSide(a) + NewSide(b)
  {
    if b == [] {
      assert a + b == a;
    } else {
      var b0 := b[..|b| - 1];
      assert (a + b)[..|a + b| - 1] == a + b0;
      SidesAppend(a, b0);
    }
  }

  /** The sides of the lines of one classification. */
  lemma {:induction false} SidesOfGroup(chunk: DiffChunk, group: RunGroup)
    requires ChunkFollows(chunk, group)
    ensures OldSide(chunk.lines) == if group.kind != Added then group.lines else []
    ensures NewSide(chunk.lines) == if group.kind != Removed then group.lines else []
    decreases |chunk.lines|
  {
    if chunk.lines != [] {
      var n := |chunk.lines|;
      var shorter := DiffChunk(chunk.lines[..n - 1], chunk.isUnchanged);
      var g := RunGroup(group.lines[..n - 1], group.kind);
      assert ChunkFollows(shorter, g);
      SidesOfGroup(shorter, g);
      assert group.lines == g.lines + [group.lines[n - 1]];
    }
  }

  /**
   * Reconstruction: the removed and unchanged lines, in order, are the lines
   * of all runs that are not additions; the added and unchanged lines are
   * those of all runs that are not removals.
   */
  lemma {:induction false} Reconstruction(chunks: seq<DiffChunk>, changes: seq<Change>)
    requires ChunksFollow(chunks, RunGroups(changes))
    ensures OldSide(Flatten(chunks)) == OldRunLines(changes)
    ensures NewSide(Flatten(chunks)) == NewRunLines(changes)
  {
    if changes != [] {
      var prefix := changes[..|changes| - 1];
      var c := changes[|changes| - 1];
      FollowPrefix(chunks, changes);
      if SplitIntoLines(c.value) == [] {
        Reconstruction(chunks, prefix);
      } else {
        var init := chunks[..|chunks| - 1];
        Reconstruction(init, prefix);
        ReconstructionStep(chunks, changes, init, chunks[|chunks| - 1], prefix, c);
      }
    }
  }

  /** The inductive step of `Reconstruction`: one more run, and the chunk that follows its lines. */
  lemma ReconstructionStep(chunks: seq<DiffChunk>, changes: seq<Change>,
                           init: seq<DiffChunk>, last: DiffChunk, prefix: seq<Change>, c: Change)
    requires chunks != [] && init == chunks[..|chunks| - 1] && last == chunks[|chunks| - 1]
    requires changes != [] && prefix == changes[..|changes| - 1] && c == changes[|changes| - 1]
    requires ChunkFollows(last, RunGroup(SplitIntoLines(c.value), KindOf(c)))
    requires OldSide(Flatten(init)) == OldRunLines(prefix) && NewSide(Flatten(init)) == NewRunLines(prefix)
    ensures OldSide(Flatten(chunks)) == OldRunLines(changes)
    ensures NewSide(Flatten(chunks)) == NewRunLines(changes)
  {
    SidesAppend(Flatten(init), last.lines);
    SidesOfGroup(last, RunGroup(SplitIntoLines(c.value), KindOf(c)));
  }

  /**
   * Chunks following the runs' groups, split at the last run: a run without
   * lines adds no group, so the same chunks follow the earlier runs; a run
   * with lines adds the last chunk, and the others follow the earlier runs.
   */
  lemma FollowPrefix(chunks: seq<DiffChunk>, changes: seq<Change>)
    requires changes != [] && ChunksFollow(chunks, RunGroups(changes))
    ensures var prefix, c := changes[..|changes| - 1], changes[|changes| - 1];
            var lines := SplitIntoLines(c.value);
            && (lines == [] ==> ChunksFollow(chunks, RunGroups(prefix)) && OldRunLines(changes) == OldRunLines(prefix)
                                && NewRunLines(changes) == NewRunLines(prefix))
            && (lines != [] ==> chunks != [] && ChunksFollow(chunks[..|chunks| - 1], RunGroups(prefix))
                                && ChunkFollows(chunks[|chunks| - 1], RunGroup(lines, KindOf(c))))
  {
    var prefix, c := changes[..|changes| - 1], changes[|changes| - 1];
    var lines := SplitIntoLines(c.value);
    if lines == [] {
      assert RunGroups(changes) == RunGroups(prefix);
      assert OldRunLines(changes) == OldRunLines(prefix) + [];
      assert NewRunLines(changes) == NewRunLines(prefix) + [];
    } else {
      assert RunGroups(changes) == RunGroups(prefix) + [RunGroup(lines, KindOf(c))];
      FollowInit(chunks, RunGroups(prefix), RunGroup(lines, KindOf(c)));
    }
  }

  /** Chunks following groups and one more group: all but the last chunk follow the groups, the last one the new group. */
  lemma FollowInit(chunks: seq<DiffChunk>, groups: seq<RunGroup>, group: RunGroup)
    requires ChunksFollow(chunks, groups + [group])
    ensures ChunksFollow(chunks[..|chunks| - 1], groups)
    ensures ChunkFollows(chunks[|chunks| - 1], group)
  {
    var init := chunks[..|chunks| - 1];
    forall q | 0 <= q < |init|
      ensures ChunkFollows(init[q], groups[q])
    {
      assert init[q] == chunks[q];
      assert (groups + [group])[q] == groups[q];
    }
    assert (groups + [group])[|groups|] == group;
  }

  /** Every line is counted once in the statistics, and the sides are sized by them. */
  lemma {:induction false} SideCounts(lines: seq<DiffLine>)
    ensures |lines| == CountOf(lines, Added) + CountOf(lines, Removed) + CountOf(lines, Unchanged)
    ensures |OldSide(lines)| == CountOf(lines, Removed) + CountOf(lines, Unchanged)
    ensures |NewSide(lines)| == CountOf(lines, Added) + CountOf(lines, Unchanged)
  {
    if lines != [] {
      SideCounts(lines[..|lines| - 1]);
    }
  }

  /**
   * Line numbers address the sides: in numbered lines, a left number is the
   * 1-based position of the line's content among the removed and unchanged
   * lines, and a right number its position among the added and unchanged ones.
   */
  lemma LineNumbersAddressSides(lines: seq<DiffLine>)
    requires Numbered(lines)
    ensures Addresses(lines, OldSide(lines), NewSide(lines))
  {
    forall p | 0 <= p < |lines|
      ensures lines[p].Left().Some? ==>
                1 <= lines[p].left <= |OldSide(lines)| && OldSide(lines)[lines[p].left - 1] == lines[p].content
      ensures lines[p].Right().Some? ==>
                1 <= lines[p].right <= |NewSide(lines)| && NewSide(lines)[lines[p].right - 1] == lines[p].content
    {
      AddressAt(lines, p);
    }
  }

  /** One line of `LineNumbersAddressSides`. */
  lemma AddressAt(lines: seq<DiffLine>, p: nat)
    requires p < |lines| && NumberedAt(lines, p)
    ensures lines[p].Left().Some? ==>
              1 <= lines[p].left <= |OldSide(lines)| && OldSide(lines)[lines[p].left - 1] == lines[p].content
    ensures lines[p].Right().Some? ==>
              1 <= lines[p].right <= |NewSide(lines)| && NewSide(lines)[lines[p].right - 1] == lines[p].content
  {
    var upTo, rest := lines[..p + 1], lines[p + 1..];
    assert upTo[..p] == lines[..p];
    assert lines == upTo + rest;
    SidesAppend(upTo, rest);
    assert OldSide(upTo) == OldSide(lines[..p]) + if lines[p].Left().Some? then [lines[p].content] else [];
    assert NewSide(upTo) == NewSide(lines[..p]) + if lines[p].Right().Some? then [lines[p].content] else [];
  }

  /**
   * Within numbered lines, two neighbours that both carry a left (right)
   * number carry consecutive numbers.
   */
  lemma ConsecutiveNumbers(lines: seq<DiffLine>, p: nat)
    requires Numbered(lines) && p + 1 < |lines|
    ensures lines[p].Left().Some? && lines[p + 1].Left().Some? ==> lines[p + 1].left == lines[p].left + 1
    ensures lines[p].Right().Some? && lines[p + 1].Right().Some? ==> lines[p + 1].right == lines[p].right + 1
  {
    assert NumberedAt(lines, p) && NumberedAt(lines, p + 1);
    assert lines[..p + 1][..p] == lines[..p];
  }

  /**
   * Counters carry across runs: two unchanged lines, then a removed one,
   * then an added one number the removal left 3 and the addition right 3.
   */
  lemma ParseMixedChangesExample()
    ensures var r := Parse([Change("keep1\nkeep2\n", false, false), Change("old\n", false, true), Change("new\n", true, false)]);
            && r.chunks == [DiffChunk([UnchangedLine("keep1", 1, 1), UnchangedLine("keep2", 2, 2)], true),
                            DiffChunk([RemovedLine("old", 3)], false),
                            DiffChunk([AddedLine("new", 3)], false)]
            && r.stats == DiffStats(1, 1, 2, 4)
            && r.originalLineCount == 3 && r.modifiedLineCount == 3
  {
    MixedChangesLines();
    MixedChangesWalk(Change("keep1\nkeep2\n", false, false), Change("old\n", false, true), Change("new\n", true, false),
                     "keep1", "keep2", "old", "new");
  }

  /** The lines of the three runs of `ParseMixedChangesExample`. */
  lemma MixedChangesLines()
    ensures SplitIntoLines("keep1\nkeep2\n") == ["keep1", "keep2"]
    ensures SplitIntoLines("old\n") == ["old"]
    ensures SplitIntoLines("new\n") == ["new"]
  {
    assert "keep1\nkeep2\n" == "keep1" + [NewLine] + "keep2" + [NewLine];
    TwoLines("keep1", "keep2");
    assert "old\n" == "old" + [NewLine];
    OneLine("old");
    assert "new\n" == "new" + [NewLine];
    OneLine("new");
  }

  /** A newline-free line followed by a newline is that one line. */
  lemma OneLine(x: string)
    requires NewLine !in x
    ensures SplitIntoLines(x + [NewLine]) == [x]
  {
    assert [x][..0] == [];
    SplitIntoLinesUnique(x + [NewLine], [x]);
  }

  /** Two newline-free lines, each followed by a newline, are those two lines. */
  lemma TwoLines(x: string, y: string)
    requires NewLine !in x && NewLine !in y
    ensures SplitIntoLines(x + [NewLine] + y + [NewLine]) == [x, y]
  {
    assert [x, y][..1] == [x];
    assert [x][..0] == [];
    assert Terminated([x]) == x + [NewLine];
    assert Terminated([x, y]) == x + [NewLine] + y + [NewLine];
    SplitIntoLinesUnique(x + [NewLine] + y + [NewLine], [x, y]);
  }

  /**
   * The walk after one more run: that run's lines expanded from the counters
   * reached so far. The states before and after are named, so a caller only
   * checks the new state's fields.
   */
  lemma WalkStep(prefix: seq<Change>, c: Change, lines: seq<string>, before: BuildState, after: BuildState)
    requires Walk(prefix) == before && SplitIntoLines(c.value) == lines
    requires var kind := KindOf(c);
             var expanded := Expand(lines, kind, before.left, before.right);
             after == BuildState(
               if |expanded| > 0 then before.chunks + [DiffChunk(expanded, !c.added && !c.removed)] else before.chunks,
               Tally(before.stats, kind, |lines|), NextLeft(kind, before.left, |lines|), NextRight(kind, before.right, |lines|))
    ensures Walk(prefix + [c]) == after
  {
    assert (prefix + [c])[..|prefix|] == prefix;
  }

  /** The walk of `ParseMixedChangesExample`, on runs given by their lines and flags. */
  lemma MixedChangesWalk(c0: Change, c1: Change, c2: Change, k1: string, k2: string, o: string, n: string)
    requires SplitIntoLines(c0.value) == [k1, k2] && !c0.added && !c0.removed
    requires SplitIntoLines(c1.value) == [o] && !c1.added && c1.removed
    requires SplitIntoLines(c2.value) == [n] && c2.added && !c2.removed
    ensures var r := Parse([c0, c1, c2]);
            && r.chunks == [DiffChunk([UnchangedLine(k1, 1, 1), UnchangedLine(k2, 2, 2)], true),
                            DiffChunk([RemovedLine(o, 3)], false),
                            DiffChunk([AddedLine(n, 3)], false)]
            && r.stats == DiffStats(1, 1, 2, 4)
            && r.originalLineCount == 3 && r.modifiedLineCount == 3
  {
    var p0: seq<Change> := [];
    var p1 := p0 + [c0];
    var p2 := p1 + [c1];
    var p3 := p2 + [c2];
    var keep := DiffChunk([UnchangedLine(k1, 1, 1), UnchangedLine(k2, 2, 2)], true);
    var removal := DiffChunk([RemovedLine(o, 3)], false);
    MixedStep1(p0, c0, k1, k2);
    MixedStep2(p1, c1, [keep], o);
    MixedStep3(p2, c2, [keep] + [removal], n);
    AppendThree(c0, c1, c2);
    AppendThree(keep, removal, DiffChunk([AddedLine(n, 3)], false));
  }

  /** Three single appends to the empty sequence make the three-element display. */
  lemma AppendThree<T>(a: T, b: T, c: T)
    ensures [] + [a] + [b] + [c] == [a, b, c]
    ensures [a] + [b] + [c] == [a, b, c]
  {
  }

  /** First step of `MixedChangesWalk`: the two unchanged lines take numbers 1/1 and 2/2. */
  lemma MixedStep1(p: seq<Change>, c: Change, k1: string, k2: string)
    requires p == []
    requires SplitIntoLines(c.value) == [k1, k2] && !c.added && !c.removed
    ensures Walk(p + [c]) == BuildState([DiffChunk([UnchangedLine(k1, 1, 1), UnchangedLine(k2, 2, 2)], true)], DiffStats(0, 0, 2, 0), 3, 3)
  {
    ExpandNumbering([k1, k2], Unchanged, 1, 1);
    assert Expand([k1, k2], Unchanged, 1, 1) == [UnchangedLine(k1, 1, 1), UnchangedLine(k2, 2, 2)];
    WalkStep(p, c, [k1, k2], Walk(p), BuildState([DiffChunk([UnchangedLine(k1, 1, 1), UnchangedLine(k2, 2, 2)], true)], DiffStats(0, 0, 2, 0), 3, 3));
  }

  /** Second step of `MixedChangesWalk`: the removed line takes left number 3. */
  lemma MixedStep2(p: seq<Change>, c: Change, chunks: seq<DiffChunk>, o: string)
    requires Walk(p) == BuildState(chunks, DiffStats(0, 0, 2, 0), 3, 3)
    requires SplitIntoLines(c.value) == [o] && !c.added && c.removed
    ensures Walk(p + [c]) == BuildState(chunks + [DiffChunk([RemovedLine(o, 3)], false)], DiffStats(0, 1, 2, 0), 4, 3)
  {
    ExpandNumbering([o], Removed, 3, 3);
    assert Expand([o], Removed, 3, 3) == [RemovedLine(o, 3)];
    WalkStep(p, c, [o], Walk(p), BuildState(chunks + [DiffChunk([RemovedLine(o, 3)], false)], DiffStats(0, 1, 2, 0), 4, 3));
  }

  /** Third step of `MixedChangesWalk`: the added line takes right number 3. */
  lemma MixedStep3(p: seq<Change>, c: Change, chunks: seq<DiffChunk>, n: string)
    requires Walk(p) == BuildState(chunks, DiffStats(0, 1, 2, 0), 4, 3)
    requires SplitIntoLines(c.value) == [n] && c.added && !c.removed
    ensures Walk(p + [c]) == BuildState(chunks + [DiffChunk([AddedLine(n, 3)], false)], DiffStats(1, 1, 2, 0), 4, 4)
  {
    ExpandNumbering([n], Added, 4, 3);
    assert Expand([n], Added, 4, 3) == [AddedLine(n, 3)];
    WalkStep(p, c, [n], Walk(p), BuildState(chunks + [DiffChunk([AddedLine(n, 3)], false)], DiffStats(1, 1, 2, 0), 4, 4));
  }
}
