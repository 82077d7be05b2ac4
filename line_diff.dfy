/**
 * The positional line diff of `utils/line_diff.ts`: both texts are split on
 * newlines and compared index by index, with JavaScript truthiness deciding
 * which side of a differing index is reported. An empty line and a missing
 * line both count as absent.
 */
module PositionalDiff {
  import opened Optional
  import opened Text

  /** The kinds a line operation may have; `Modify` is declared but never produced. */
  datatype LineOpKind = Equal | Add | Remove | Modify

  /**
   * One line operation: its kind, its 1-based index, its content, and the
   * line numbers on the old and new side (absent on the side it does not
   * touch).
   */
  datatype LineDiffOp = LineDiffOp(
    kind: LineOpKind,
    lineNumber: nat,
    content: string,
    oldLineNumber: Option<nat>,
    newLineNumber: Option<nat>)

  /** `lines[i]`: undefined past the end. */
  function LineAt(lines: seq<string>, i: nat): Option<string>
  {
    if i < |lines| then Some(lines[i]) else None
  }

  /** JavaScript truthiness of a possibly undefined string: defined and not empty. */
  predicate Truthy(line: Option<string>)
  {
    line.Some? && line.value != ""
  }

  /** A removal at `n`: it has an old line number only. */
  function RemoveOp(n: nat, content: string): LineDiffOp
  {
    LineDiffOp(Remove, n, content, Some(n), None)
  }

  /** An addition at `n`: it has a new line number only. */
  function AddOp(n: nat, content: string): LineDiffOp
  {
    LineDiffOp(Add, n, content, None, Some(n))
  }

  /**
   * The operations index `i` contributes, as the body of the loop decides
   * them. Inside the loop at least one of the two lines is defined.
   */
  function IndexOps(oldLines: seq<string>, newLines: seq<string>, i: nat): (ops: seq<LineDiffOp>)
    requires i < |oldLines| || i < |newLines|
    ensures |ops| <= 2
    ensures forall q :: 0 <= q < |ops| ==> ops[q].lineNumber == i + 1 && ops[q].kind != Modify
    ensures |ops| == 2 ==> ops[0].kind == Remove && ops[1].kind == Add
  {
    var oldLine, newLine := LineAt(oldLines, i), LineAt(newLines, i);
    var n := i + 1;
    if oldLine == newLine then [LineDiffOp(Equal, n, oldLine.value, Some(n), Some(n))]
    else if Truthy(oldLine) && Truthy(newLine) then [RemoveOp(n, oldLine.value), AddOp(n, newLine.value)]
    else if Truthy(oldLine) then [RemoveOp(n, oldLine.value)]
    else if Truthy(newLine) then [AddOp(n, newLine.value)]
    else []
  }

  /** The result after the first `t` indices. */
  function OpsUpTo(oldLines: seq<string>, newLines: seq<string>, t: nat): (r: seq<LineDiffOp>)
    requires t <= Max(|oldLines|, |newLines|)
    ensures |r| <= 2 * t
  {
    if t == 0 then [] else OpsUpTo(oldLines, newLines, t - 1) + IndexOps(oldLines, newLines, t - 1)
  }

  /**
   * `lineDiff`: split both texts on newlines, with no trailing-line
   * filtering, and walk every index up to the longer length.
   */
  method LineDiff(oldText: string, newText: string) returns (result: seq<LineDiffOp>)
    ensures var oldLines, newLines := Split(oldText), Split(newText);
            result == OpsUpTo(oldLines, newLines, Max(|oldLines|, |newLines|))
  {
    var oldLines := Split(oldText);
    var newLines := Split(newText);
    var maxLines := Max(|oldLines|, |newLines|);
    result := [];

    for i := 0 to maxLines
      invariant result == OpsUpTo(oldLines, newLines, i)
    {
      assert OpsUpTo(oldLines, newLines, i + 1) == OpsUpTo(oldLines, newLines, i) + IndexOps(oldLines, newLines, i);
      var oldLine := LineAt(oldLines, i);
      var newLine := LineAt(newLines, i);

      if oldLine == newLine {
        result := result + [LineDiffOp(Equal, i + 1, oldLine.value, Some(i + 1), Some(i + 1))];
      } else if Truthy(oldLine) && Truthy(newLine) {
        ghost var before := result;
        result := result + [RemoveOp(i + 1, oldLine.value)];
        result := result + [AddOp(i + 1, newLine.value)];
        assert result == before + [RemoveOp(i + 1, oldLine.value), AddOp(i + 1, newLine.value)];
      } else if Truthy(oldLine) {
        result := result + [RemoveOp(i + 1, oldLine.value)];
      } else if Truthy(newLine) {
        result := result + [AddOp(i + 1, newLine.value)];
      }
    }
  }

  // ---------------------------------------------------------------------
  // What the result says
  // ---------------------------------------------------------------------

  /**
   * An operation agrees with the two line lists: an equal line is the same
   * defined line on both sides; a removal carries a non-empty old line that
   * differs from the new line at its index; an addition the other way round;
   * and each carries exactly the line numbers of the sides it touches.
   */
  predicate Describes(oldLines: seq<string>, newLines: seq<string>, op: LineDiffOp)
  {
    var n := op.lineNumber;
    n >= 1 &&
    match op.kind
    case Equal =>
      && op.oldLineNumber == Some(n) && op.newLineNumber == Some(n)
      && LineAt(oldLines, n - 1) == Some(op.content) && LineAt(newLines, n - 1) == Some(op.content)
    case Remove =>
      && op.oldLineNumber == Some(n) && op.newLineNumber == None
      && LineAt(oldLines, n - 1) == Some(op.content) && op.content != ""
      && LineAt(newLines, n - 1) != Some(op.content)
    case Add =>
      && op.newLineNumber == Some(n) && op.oldLineNumber == None
      && LineAt(newLines, n - 1) == Some(op.content) && op.content != ""
      && LineAt(oldLines, n - 1) != Some(op.content)
    case Modify => false
  }

  /** The operations of one index `n - 1`: at most two, all numbered `n` and sound, a removal before an addition. */
  predicate SoundIndex(oldLines: seq<string>, newLines: seq<string>, ops: seq<LineDiffOp>, n: nat)
  {
    && |ops| <= 2
    && (forall q :: 0 <= q < |ops| ==> ops[q].lineNumber == n && Describes(oldLines, newLines, ops[q]))
    && (|ops| == 2 ==> ops[0].kind == Remove && ops[1].kind == Add)
  }

  /** What one index contributes: at most two operations, all sound, a removal before an addition. */
  lemma IndexOpsProperties(oldLines: seq<string>, newLines: seq<string>, i: nat)
    requires i < |oldLines| || i < |newLines|
    ensures SoundIndex(oldLines, newLines, IndexOps(oldLines, newLines, i), i + 1)
  {
  }

  /**
   * What soundness after `t` indices means: at most two operations per index;
   * every operation agrees with the line lists, lies within the walked
   * indices and is not `Modify`; line numbers never decrease; and two
   * operations on the same index are a removal followed by an addition.
   */
  predicate SoundOps(oldLines: seq<string>, newLines: seq<string>, r: seq<LineDiffOp>, t: nat)
  {
    && |r| <= 2 * t
    && (forall p :: 0 <= p < |r| ==>
          Describes(oldLines, newLines, r[p]) && r[p].lineNumber <= t && r[p].kind != Modify)
    && (forall p, q :: 0 <= p < q < |r| ==> r[p].lineNumber <= r[q].lineNumber)
    && (forall p :: 0 <= p < |r| - 1 && r[p].lineNumber == r[p + 1].lineNumber ==>
          r[p].kind == Remove && r[p + 1].kind == Add)
  }

  /** Every operation of the result is sound in the sense of `SoundOps`. */
  lemma {:induction false} OpsUpToSound(oldLines: seq<string>, newLines: seq<string>, t: nat)
    requires t <= Max(|oldLines|, |newLines|)
    ensures SoundOps(oldLines, newLines, OpsUpTo(oldLines, newLines, t), t)
  {
    if t > 0 {
      var prev, ops := OpsUpTo(oldLines, newLines, t - 1), IndexOps(oldLines, newLines, t - 1);
      assert OpsUpTo(oldLines, newLines, t) == prev + ops;
      OpsUpToSound(oldLines, newLines, t - 1);
      IndexOpsProperties(oldLines, newLines, t - 1);
      SoundAppend(oldLines, newLines, prev, ops, t);
    }
  }

  /** The inductive step of soundness: appending the operations of index `t - 1` to a sound prefix. */
  lemma SoundAppend(oldLines: seq<string>, newLines: seq<string>, prev: seq<LineDiffOp>, ops: seq<LineDiffOp>, t: nat)
    requires t >= 1 && SoundOps(oldLines, newLines, prev, t - 1)
    requires SoundIndex(oldLines, newLines, ops, t)
    ensures SoundOps(oldLines, newLines, prev + ops, t)
  {
    var r := prev + ops;
    assert forall p :: 0 <= p < |prev| ==> r[p] == prev[p];
    assert forall q :: 0 <= q < |ops| ==> r[|prev| + q] == ops[q];
  }

  /** Some operation of `r` has this kind and line number. */
  predicate HasOp(r: seq<LineDiffOp>, kind: LineOpKind, n: nat)
  {
    exists p :: 0 <= p < |r| && r[p].kind == kind && r[p].lineNumber == n
  }

  /** What index `i` must yield: an equal line, or a removal and an addition for each truthy side. */
  predicate Covers(oldLines: seq<string>, newLines: seq<string>, r: seq<LineDiffOp>, i: nat)
  {
    var oldLine, newLine := LineAt(oldLines, i), LineAt(newLines, i);
    && (oldLine == newLine ==> HasOp(r, Equal, i + 1))
    && (oldLine != newLine && Truthy(oldLine) ==> HasOp(r, Remove, i + 1))
    && (oldLine != newLine && Truthy(newLine) ==> HasOp(r, Add, i + 1))
  }

  /** Operations found in either part are found in a concatenation. */
  lemma CoversAppend(oldLines: seq<string>, newLines: seq<string>, a: seq<LineDiffOp>, b: seq<LineDiffOp>, i: nat)
    requires Covers(oldLines, newLines, a, i) || Covers(oldLines, newLines, b, i)
    ensures Covers(oldLines, newLines, a + b, i)
  {
    forall kind, n | HasOp(a, kind, n) || HasOp(b, kind, n)
      ensures HasOp(a + b, kind, n)
    {
      if HasOp(a, kind, n) {
        var p :| 0 <= p < |a| && a[p].kind == kind && a[p].lineNumber == n;
        assert (a + b)[p] == a[p];
      } else {
        var p :| 0 <= p < |b| && b[p].kind == kind && b[p].lineNumber == n;
        assert (a + b)[|a| + p] == b[p];
      }
    }
  }

  /** An index yields what it must. */
  lemma IndexOpsCover(oldLines: seq<string>, newLines: seq<string>, i: nat)
    requires i < |oldLines| || i < |newLines|
    ensures Covers(oldLines, newLines, IndexOps(oldLines, newLines, i), i)
  {
    var ops := IndexOps(oldLines, newLines, i);
    var oldLine, newLine := LineAt(oldLines, i), LineAt(newLines, i);
    if oldLine == newLine {
      assert ops[0].kind == Equal;
    } else if Truthy(oldLine) && Truthy(newLine) {
      assert ops[0].kind == Remove && ops[1].kind == Add;
    } else if Truthy(oldLine) || Truthy(newLine) {
      assert ops[0].lineNumber == i + 1;
    }
  }

  /**
   * Completeness: at every walked index, an equal line yields an `Equal`
   * operation, and a differing index yields a removal when the old line is
   * non-empty and an addition when the new line is non-empty. With
   * `OpsUpToSound` these are exactly the operations.
   */
  lemma {:induction false} OpsUpToComplete(oldLines: seq<string>, newLines: seq<string>, t: nat)
    requires t <= Max(|oldLines|, |newLines|)
    ensures forall i :: 0 <= i < t ==> Covers(oldLines, newLines, OpsUpTo(oldLines, newLines, t), i)
  {
    if t > 0 {
      var prev := OpsUpTo(oldLines, newLines, t - 1);
      var ops := IndexOps(oldLines, newLines, t - 1);
      OpsUpToComplete(oldLines, newLines, t - 1);
      IndexOpsCover(oldLines, newLines, t - 1);
      forall i | 0 <= i < t
        ensures Covers(oldLines, newLines, prev + ops, i)
      {
        CoversAppend(oldLines, newLines, prev, ops, i);
      }
    }
  }

  /** No line is empty. */
  predicate NoBlankLines(lines: seq<string>)
  {
    forall k :: 0 <= k < |lines| ==> lines[k] != ""
  }

  /** The contents the result attributes to the old side, in order: equal lines and removals. */
  function OldContents(ops: seq<LineDiffOp>): seq<string>
  {
    if ops == [] then []
    else OldContents(ops[..|ops| - 1]) + (if ops[|ops| - 1].kind in {Equal, Remove} then [ops[|ops| - 1].content] else [])
  }

  /** The contents the result attributes to the new side, in order: equal lines and additions. */
  function NewContents(ops: seq<LineDiffOp>): seq<string>
  {
    if ops == [] then []
    else NewContents(ops[..|ops| - 1]) + (if ops[|ops| - 1].kind in {Equal, Add} then [ops[|ops| - 1].content] else [])
  }

  /** The contents of a concatenation. */
  lemma {:induction false} ContentsAppend(a: seq<LineDiffOp>, b: seq<LineDiffOp>)
    ensures OldContents(a + b) == OldContents(a) + OldContents(b)
    ensures NewContents(a + b) == NewContents(a) + NewContents(b)
    decreases |b|
  {
    if b != [] {
      ContentsAppend(a, b[..|b| - 1]);
      assert (a + b)[..|a + b| - 1] == a + b[..|b| - 1];
    } else {
      assert a + b == a;
    }
  }

  /** The contents of a single operation. */
  lemma ContentsOfOne(op: LineDiffOp)
    ensures OldContents([op]) == if op.kind in {Equal, Remove} then [op.content] else []
    ensures NewContents([op]) == if op.kind in {Equal, Add} then [op.content] else []
  {
    assert [op][..0] == [];
  }

  /** The whole walk, without blank lines, loses nothing. */
  lemma LineDiffLossless(oldText: string, newText: string)
    requires NoBlankLines(Split(oldText)) && NoBlankLines(Split(newText))
    ensures var oldLines, newLines := Split(oldText), Split(newText);
            var r := OpsUpTo(oldLines, newLines, Max(|oldLines|, |newLines|));
            OldContents(r) == oldLines && NewContents(r) == newLines
  {
    var oldLines, newLines := Split(oldText), Split(newText);
    ContentsUpTo(oldLines, newLines, Max(|oldLines|, |newLines|));
    KeptWithoutBlankLines(oldLines, newLines, |oldLines|);
    KeptWithoutBlankLines(newLines, oldLines, |newLines|);
    assert oldLines[..|oldLines|] == oldLines;
    assert newLines[..|newLines|] == newLines;
  }

  /**
   * The lines among the first `t` of `lines` that the walk reports: every
   * non-empty line, and an empty line only where `other` holds the same
   * line at that index. An empty line facing a different line is absent.
   */
  function KeptLines(lines: seq<string>, other: seq<string>, t: nat): seq<string>
    requires t <= |lines|
  {
    if t == 0 then []
    else KeptLines(lines, other, t - 1)
         + if lines[t - 1] != "" || LineAt(other, t - 1) == Some(lines[t - 1]) then [lines[t - 1]] else []
  }

  /** An index gives each side its own line exactly when that line is kept. */
  lemma IndexContentsKept(oldLines: seq<string>, newLines: seq<string>, i: nat)
    requires i < |oldLines| || i < |newLines|
    ensures OldContents(IndexOps(oldLines, newLines, i)) ==
            if i < |oldLines| && (oldLines[i] != "" || LineAt(newLines, i) == Some(oldLines[i])) then [oldLines[i]] else []
    ensures NewContents(IndexOps(oldLines, newLines, i)) ==
            if i < |newLines| && (newLines[i] != "" || LineAt(oldLines, i) == Some(newLines[i])) then [newLines[i]] else []
  {
    var oldLine, newLine := LineAt(oldLines, i), LineAt(newLines, i);
    var n := i + 1;
    if oldLine == newLine {
      ContentsOfOne(LineDiffOp(Equal, n, oldLine.value, Some(n), Some(n)));
    } else if Truthy(oldLine) && Truthy(newLine) {
      var removal, addition := RemoveOp(n, oldLine.value), AddOp(n, newLine.value);
      assert IndexOps(oldLines, newLines, i) == [removal] + [addition];
      ContentsAppend([removal], [addition]);
      ContentsOfOne(removal);
      ContentsOfOne(addition);
    } else if Truthy(oldLine) {
      ContentsOfOne(RemoveOp(n, oldLine.value));
    } else if Truthy(newLine) {
      ContentsOfOne(AddOp(n, newLine.value));
    }
  }

  /**
   * What the walk loses, for any texts: the equal and removed contents are
   * the old lines minus the empty ones at indices where the sides differ,
   * and likewise for the equal and added contents and the new lines.
   */
  lemma {:induction false} ContentsUpTo(oldLines: seq<string>, newLines: seq<string>, t: nat)
    requires t <= Max(|oldLines|, |newLines|)
    ensures OldContents(OpsUpTo(oldLines, newLines, t)) == KeptLines(oldLines, newLines, if t <= |oldLines| then t else |oldLines|)
    ensures NewContents(OpsUpTo(oldLines, newLines, t)) == KeptLines(newLines, oldLines, if t <= |newLines| then t else |newLines|)
  {
    if t > 0 {
      var i := t - 1;
      var prev, ops := OpsUpTo(oldLines, newLines, i), IndexOps(oldLines, newLines, i);
      assert OpsUpTo(oldLines, newLines, t) == prev + ops;
      ContentsUpTo(oldLines, newLines, i);
      ContentsAppend(prev, ops);
      IndexContentsKept(oldLines, newLines, i);
      KeptStep(oldLines, newLines, i);
      KeptStep(newLines, oldLines, i);
    }
  }

  /** One more index keeps the line there, if any and if kept. */
  lemma KeptStep(lines: seq<string>, other: seq<string>, i: nat)
    ensures KeptLines(lines, other, if i + 1 <= |lines| then i + 1 else |lines|) ==
            KeptLines(lines, other, if i <= |lines| then i else |lines|)
            + if i < |lines| && (lines[i] != "" || LineAt(other, i) == Some(lines[i])) then [lines[i]] else []
  {
    if i >= |lines| {
      var kept := KeptLines(lines, other, |lines|);
      assert kept + [] == kept;
    }
  }

  /** `lineDiff` on any two texts: each side comes back minus its empty lines that face a different line. */
  lemma LineDiffContents(oldText: string, newText: string)
    ensures var oldLines, newLines := Split(oldText), Split(newText);
            var r := OpsUpTo(oldLines, newLines, Max(|oldLines|, |newLines|));
            OldContents(r) == KeptLines(oldLines, newLines, |oldLines|) && NewContents(r) == KeptLines(newLines, oldLines, |newLines|)
  {
    var oldLines, newLines := Split(oldText), Split(newText);
    ContentsUpTo(oldLines, newLines, Max(|oldLines|, |newLines|));
  }

  /** Without empty lines every line is kept, whatever the other side holds. */
  lemma {:induction false} KeptWithoutBlankLines(lines: seq<string>, other: seq<string>, t: nat)
    requires NoBlankLines(lines) && t <= |lines|
    ensures KeptLines(lines, other, t) == lines[..t]
  {
    if t > 0 {
      KeptWithoutBlankLines(lines, other, t - 1);
      assert lines[..t] == lines[..t - 1] + [lines[t - 1]];
    }
  }

  /** Against a copy of itself every line is kept, empty ones included. */
  lemma {:induction false} KeptAgainstItself(lines: seq<string>, t: nat)
    requires t <= |lines|
    ensures KeptLines(lines, lines, t) == lines[..t]
  {
    if t > 0 {
      KeptAgainstItself(lines, t - 1);
      assert lines[..t] == lines[..t - 1] + [lines[t - 1]];
    }
  }

  /** A text compared with itself loses nothing: `"a\n"` against `"a\n"` gives back both lines. */
  lemma LineDiffIdentical(text: string)
    ensures var lines := Split(text);
            var r := OpsUpTo(lines, lines, Max(|lines|, |lines|));
            OldContents(r) == lines && NewContents(r) == lines
  {
    var lines := Split(text);
    LineDiffContents(text, text);
    KeptAgainstItself(lines, |lines|);
    assert lines[..|lines|] == lines;
  }

  /** Two empty texts are one equal empty line. */
  lemma EmptyTextsAreOneEqualLine()
    ensures var oldLines, newLines := Split(""), Split("");
            OpsUpTo(oldLines, newLines, Max(|oldLines|, |newLines|)) == [LineDiffOp(Equal, 1, "", Some(1), Some(1))]
  {
  }

  /**
   * A trailing newline is invisible: `"a\n"` against `"a"` yields only the
   * equal first line, since the extra empty line is not truthy.
   */
  lemma TrailingNewLineIgnored()
    ensures var oldLines, newLines := Split("a\n"), Split("a");
            OpsUpTo(oldLines, newLines, Max(|oldLines|, |newLines|)) == [LineDiffOp(Equal, 1, "a", Some(1), Some(1))]
  {
    SplitSnoc("", 'a');
    SplitSnoc("a", NewLine);
    assert "a\n" == "a" + [NewLine];
    var oldLines, newLines := Split("a\n"), Split("a");
    assert oldLines == ["a", ""] && newLines == ["a"];
    assert IndexOps(oldLines, newLines, 1) == [];
    assert OpsUpTo(oldLines, newLines, 2) == OpsUpTo(oldLines, newLines, 1);
  }

  /** An empty old line replaced by text is reported as an addition alone. */
  lemma BlankLineReplacedIsOnlyAdded()
    ensures var oldLines, newLines := Split(""), Split("x");
            OpsUpTo(oldLines, newLines, Max(|oldLines|, |newLines|)) == [AddOp(1, "x")]
  {
    SplitSnoc("", 'x');
    var oldLines, newLines := Split(""), Split("x");
    assert oldLines == [""] && newLines == ["x"];
    assert OpsUpTo(oldLines, newLines, 1) == IndexOps(oldLines, newLines, 0);
  }
}
