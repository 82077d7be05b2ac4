/**
 * The character diff of `utils/diff_helper.ts`: a longest-common-subsequence
 * table filled by dynamic programming, a backtrack that recovers one longest
 * common subsequence, and a pass that turns it into an edit script of
 * single-character removals, additions and equal anchors.
 */
module DiffHelper {
  import opened Text

  /** The three kinds of edit operation. */
  datatype OpKind = Remove | Add | Equal

  /** One edit operation and the text it carries. */
  datatype DiffOp = DiffOp(kind: OpKind, value: string)

  // ---------------------------------------------------------------------
  // Subsequences and the length of a longest common one
  // ---------------------------------------------------------------------

  /** `s` is `t` with some characters deleted: match or skip the first character of `t`. */
  predicate IsSubsequence(s: string, t: string)
    decreases |t|
  {
    s == [] || (t != [] && ((s[0] == t[0] && IsSubsequence(s[1..], t[1..])) || IsSubsequence(s, t[1..])))
  }

  /**
   * The length of a longest common subsequence, by the recurrence on the
   * last characters that the table follows. `LcsLengthIsUpperBound` and
   * `ExtractLcs` show that it is the greatest length of a common
   * subsequence and that it is attained.
   */
  function LcsLength(a: string, b: string): nat
    decreases |a| + |b|
  {
    if |a| == 0 || |b| == 0 then 0
    else if a[|a| - 1] == b[|b| - 1] then LcsLength(a[..|a| - 1], b[..|b| - 1]) + 1
    else Max(LcsLength(a[..|a| - 1], b), LcsLength(a, b[..|b| - 1]))
  }

  /** The recurrence, on prefixes of two fixed strings. */
  lemma LcsStep(a: string, b: string, i: nat, j: nat)
    requires 1 <= i <= |a| && 1 <= j <= |b|
    ensures LcsLength(a[..i], b[..j]) ==
            if a[i - 1] == b[j - 1] then LcsLength(a[..i - 1], b[..j - 1]) + 1
            else Max(LcsLength(a[..i - 1], b[..j]), LcsLength(a[..i], b[..j - 1]))
  {
    assert a[..i][..i - 1] == a[..i - 1];
    assert b[..j][..j - 1] == b[..j - 1];
  }

  /** `Array.prototype.reverse` on a string. */
  function Reverse(s: string): (r: string)
    ensures |r| == |s|
    ensures forall k :: 0 <= k < |s| ==> r[k] == s[|s| - 1 - k]
  {
    if s == [] then [] else [s[|s| - 1]] + Reverse(s[..|s| - 1])
  }

  /** Dropping the first character of a subsequence keeps it a subsequence. */
  lemma {:induction false} DropHead(s: string, t: string)
    requires s != [] && IsSubsequence(s, t)
    ensures IsSubsequence(s[1..], t)
    decreases |t|
  {
    if !(s[0] == t[0] && IsSubsequence(s[1..], t[1..])) {
      DropHead(s, t[1..]);
    }
  }

  /** Dropping the last character of a subsequence keeps it a subsequence. */
  lemma {:induction false} DropLast(s: string, t: string)
    requires s != [] && IsSubsequence(s, t)
    ensures IsSubsequence(s[..|s| - 1], t)
    decreases |t|
  {
    var s0 := s[..|s| - 1];
    if s[0] == t[0] && IsSubsequence(s[1..], t[1..]) {
      if |s| > 1 {
        DropLast(s[1..], t[1..]);
        assert s0[0] == t[0];
        assert s0[1..] == s[1..][..|s| - 2];
      }
    } else {
      DropLast(s, t[1..]);
    }
  }

  /** A matched first character is consumed on both sides. */
  lemma MatchHead(s: string, t: string)
    requires s != [] && IsSubsequence(s, t) && s[0] == t[0]
    ensures IsSubsequence(s[1..], t[1..])
  {
    if !IsSubsequence(s[1..], t[1..]) {
      DropHead(s, t[1..]);
    }
  }

  /** A subsequence of a suffix is a subsequence of the whole. */
  lemma {:induction false} SubsequenceOfSuffix(s: string, t: string, j: nat)
    requires j <= |t| && IsSubsequence(s, t[j..])
    ensures IsSubsequence(s, t)
    decreases j
  {
    if j > 0 {
      assert t[j - 1..][1..] == t[j..];
      SubsequenceOfSuffix(s, t, j - 1);
    }
  }

  /**
   * The same relation read from the back: the last character of `t` either
   * matches the last of `s`, or is skipped.
   */
  lemma {:induction false} SubsequenceBack(s: string, t: string)
    requires t != [] && IsSubsequence(s, t)
    ensures || (s != [] && s[|s| - 1] == t[|t| - 1] && IsSubsequence(s[..|s| - 1], t[..|t| - 1]))
            || IsSubsequence(s, t[..|t| - 1])
    decreases |t|
  {
    if s != [] {
      var t0 := t[..|t| - 1];
      if |t| > 1 {
        assert t0[1..] == t[1..][..|t| - 2];
        assert t0[0] == t[0];
      }
      if s[0] == t[0] && IsSubsequence(s[1..], t[1..]) {
        if |t| > 1 {
          SubsequenceBack(s[1..], t[1..]);
          if s[1..] != [] && IsSubsequence(s[1..][..|s| - 2], t[1..][..|t| - 2]) && s[|s| - 1] == t[|t| - 1] {
            var s0 := s[..|s| - 1];
            assert s0[0] == t0[0];
            assert s0[1..] == s[1..][..|s| - 2];
          }
        } else {
          assert s[..|s| - 1] == [];
        }
      } else {
        SubsequenceBack(s, t[1..]);
      }
    }
  }

  /** Appending the same character to both sides keeps a subsequence. */
  lemma {:induction false} SnocBoth(s: string, t: string, c: char)
    requires IsSubsequence(s, t)
    ensures IsSubsequence(s + [c], t + [c])
    decreases |t|
  {
    if t == [] {
      assert (s + [c])[1..] == [];
    } else {
      assert (t + [c])[1..] == t[1..] + [c];
      if s != [] && s[0] == t[0] && IsSubsequence(s[1..], t[1..]) {
        SnocBoth(s[1..], t[1..], c);
        assert (s + [c])[1..] == s[1..] + [c];
      } else {
        SnocBoth(s, t[1..], c);
      }
    }
  }

  /** Appending a character to the longer side keeps a subsequence. */
  lemma {:induction false} SnocRight(s: string, t: string, c: char)
    requires IsSubsequence(s, t)
    ensures IsSubsequence(s, t + [c])
    decreases |t|
  {
    if s != [] {
      assert (t + [c])[1..] == t[1..] + [c];
      if s[0] == t[0] && IsSubsequence(s[1..], t[1..]) {
        SnocRight(s[1..], t[1..], c);
      } else {
        SnocRight(s, t[1..], c);
      }
    }
  }

  /** No common subsequence is longer than `LcsLength`. */
  lemma {:induction false} LcsLengthIsUpperBound(s: string, a: string, b: string)
    requires IsSubsequence(s, a) && IsSubsequence(s, b)
    ensures |s| <= LcsLength(a, b)
    decreases |a| + |b|
  {
    if a != [] && b != [] && s != [] {
      var a0, b0, s0 := a[..|a| - 1], b[..|b| - 1], s[..|s| - 1];
      SubsequenceBack(s, a);
      SubsequenceBack(s, b);
      if a[|a| - 1] == b[|b| - 1] {
        if s[|s| - 1] == a[|a| - 1] {
          if IsSubsequence(s, a0) {
            DropLast(s, a0);
          }
          if IsSubsequence(s, b0) {
            DropLast(s, b0);
          }
          LcsLengthIsUpperBound(s0, a0, b0);
        } else {
          LcsLengthIsUpperBound(s, a0, b0);
        }
      } else if s[|s| - 1] != a[|a| - 1] {
        LcsLengthIsUpperBound(s, a0, b);
      } else {
        LcsLengthIsUpperBound(s, a, b0);
      }
    }
  }

  // ---------------------------------------------------------------------
  // Edit scripts
  // ---------------------------------------------------------------------

  /** Every operation carries exactly one character. */
  predicate Singletons(ops: seq<DiffOp>)
  {
    forall p :: 0 <= p < |ops| ==> |ops[p].value| == 1
  }

  /** The text the script reads, in order: removed and equal values. */
  function OldText(ops: seq<DiffOp>): string
  {
    if ops == [] then []
    else OldText(ops[..|ops| - 1]) + (if ops[|ops| - 1].kind != Add then ops[|ops| - 1].value else [])
  }

  /** The text the script writes, in order: added and equal values. */
  function NewText(ops: seq<DiffOp>): string
  {
    if ops == [] then []
    else NewText(ops[..|ops| - 1]) + (if ops[|ops| - 1].kind != Remove then ops[|ops| - 1].value else [])
  }

  /** The anchors of the script, in order: equal values. */
  function EqualText(ops: seq<DiffOp>): string
  {
    if ops == [] then []
    else EqualText(ops[..|ops| - 1]) + (if ops[|ops| - 1].kind == Equal then ops[|ops| - 1].value else [])
  }

  /** The number of operations of one kind. */
  function KindCount(ops: seq<DiffOp>, k: OpKind): nat
  {
    if ops == [] then 0
    else KindCount(ops[..|ops| - 1], k) + (if ops[|ops| - 1].kind == k then 1 else 0)
  }

  /** No addition is directly followed by a removal: pending removals always come first. */
  predicate RemovesBeforeAdds(ops: seq<DiffOp>)
  {
    forall p :: 0 <= p < |ops| - 1 ==> !(ops[p].kind == Add && ops[p + 1].kind == Remove)
  }

  /** What pushing one operation does to the texts and counts of a script. */
  lemma Push(ops: seq<DiffOp>, op: DiffOp)
    ensures OldText(ops + [op]) == OldText(ops) + (if op.kind != Add then op.value else [])
    ensures NewText(ops + [op]) == NewText(ops) + (if op.kind != Remove then op.value else [])
    ensures EqualText(ops + [op]) == EqualText(ops) + (if op.kind == Equal then op.value else [])
    ensures KindCount(ops + [op], op.kind) == KindCount(ops, op.kind) + 1
  {
    assert (ops + [op])[..|ops|] == ops;
  }

  /** Pushing a single character keeps a script of single characters. */
  lemma PushSingleton(ops: seq<DiffOp>, op: DiffOp)
    requires Singletons(ops) && |op.value| == 1
    ensures Singletons(ops + [op])
  {
  }

  /** Pushing anything but a removal after an addition keeps pending removals first. */
  lemma PushOrdered(ops: seq<DiffOp>, op: DiffOp)
    requires RemovesBeforeAdds(ops)
    requires !(ops != [] && ops[|ops| - 1].kind == Add && op.kind == Remove)
    ensures RemovesBeforeAdds(ops + [op])
  {
    var r := ops + [op];
    forall p | 0 <= p < |r| - 1
      ensures !(r[p].kind == Add && r[p + 1].kind == Remove)
    {
      if p < |ops| - 1 {
        assert r[p] == ops[p] && r[p + 1] == ops[p + 1];
      }
    }
  }

  /**
   * `ops` is a script of single characters, pending removals first, that has
   * read `o`, written `n` and anchored `e` so far.
   */
  predicate Scripted(ops: seq<DiffOp>, o: string, n: string, e: string)
  {
    Singletons(ops) && RemovesBeforeAdds(ops) && OldText(ops) == o && NewText(ops) == n && EqualText(ops) == e
  }

  /** Pushing one character onto a script extends the texts it contributes to. */
  lemma PushScript(ops: seq<DiffOp>, o: string, n: string, e: string, op: DiffOp)
    requires Scripted(ops, o, n, e) && |op.value| == 1
    requires !(ops != [] && ops[|ops| - 1].kind == Add && op.kind == Remove)
    ensures Scripted(ops + [op],
                     o + (if op.kind != Add then op.value else []),
                     n + (if op.kind != Remove then op.value else []),
                     e + (if op.kind == Equal then op.value else []))
  {
    Push(ops, op);
    PushSingleton(ops, op);
    PushOrdered(ops, op);
  }

  /** In a script of single characters, each text is as long as the operations that contribute to it. */
  lemma {:induction false} ScriptCounts(ops: seq<DiffOp>)
    requires Singletons(ops)
    ensures |OldText(ops)| == KindCount(ops, Remove) + KindCount(ops, Equal)
    ensures |NewText(ops)| == KindCount(ops, Add) + KindCount(ops, Equal)
    ensures |EqualText(ops)| == KindCount(ops, Equal)
  {
    if ops != [] {
      var init := ops[..|ops| - 1];
      assert Singletons(init) by {
        assert forall p :: 0 <= p < |init| ==> init[p] == ops[p];
      }
      ScriptCounts(init);
      assert |ops[|ops| - 1].value| == 1;
    }
  }

  /** The anchors of a script of single characters are a common subsequence of the two texts. */
  lemma {:induction false} AnchorsAreCommon(ops: seq<DiffOp>)
    requires Singletons(ops)
    ensures IsSubsequence(EqualText(ops), OldText(ops))
    ensures IsSubsequence(EqualText(ops), NewText(ops))
  {
    if ops != [] {
      var init := ops[..|ops| - 1];
      var op := ops[|ops| - 1];
      assert Singletons(init) by {
        assert forall p :: 0 <= p < |init| ==> init[p] == ops[p];
      }
      AnchorsAreCommon(init);
      assert ops == init + [op];
      Push(init, op);
      var c := op.value[0];
      assert op.value == [c];
      var e, o, n := EqualText(init), OldText(init), NewText(init);
      if op.kind == Equal {
        SnocBoth(e, o, c);
        SnocBoth(e, n, c);
      } else if op.kind == Remove {
        SnocRight(e, o, c);
        assert EqualText(ops) == e && OldText(ops) == o + [c] && NewText(ops) == n;
      } else {
        SnocRight(e, n, c);
        assert EqualText(ops) == e && OldText(ops) == o && NewText(ops) == n + [c];
      }
    }
  }

  /**
   * Minimality: a script of single characters that turns `a` into `b` has at
   * most `LcsLength(a, b)` anchors, so at least `|a| + |b| - 2 * LcsLength(a, b)`
   * removals and additions.
   */
  lemma ScriptMinimal(ops: seq<DiffOp>, a: string, b: string)
    requires Singletons(ops) && OldText(ops) == a && NewText(ops) == b
    ensures KindCount(ops, Equal) <= LcsLength(a, b)
    ensures KindCount(ops, Remove) + KindCount(ops, Add) >= |a| + |b| - 2 * LcsLength(a, b)
  {
    AnchorsAreCommon(ops);
    ScriptCounts(ops);
    LcsLengthIsUpperBound(EqualText(ops), a, b);
  }

  // ---------------------------------------------------------------------
  // The algorithm
  // ---------------------------------------------------------------------

  /**
   * `build_lcs`: an `(m+1) x (n+1)` table, zero in row 0 and column 0, whose
   * entry `dp[i, j]` is the longest-common-subsequence length of the
   * prefixes `str1[..i]` and `str2[..j]`.
   */
  method BuildLcs(str1: string, str2: string) returns (dp: array2<nat>)
    ensures dp.Length0 == |str1| + 1 && dp.Length1 == |str2| + 1
    ensures forall j :: 0 <= j <= |str2| ==> dp[0, j] == 0
    ensures forall i :: 0 <= i <= |str1| ==> dp[i, 0] == 0
    ensures forall i, j :: 0 <= i <= |str1| && 0 <= j <= |str2| ==> dp[i, j] == LcsLength(str1[..i], str2[..j])
  {
    var m, n := |str1|, |str2|;
    dp := new nat[m + 1, n + 1]((_, _) => 0);
    for i := 1 to m + 1
      invariant forall i0, j0 :: 0 <= i0 < i && 0 <= j0 <= n ==> dp[i0, j0] == LcsLength(str1[..i0], str2[..j0])
      invariant forall i0, j0 :: i <= i0 <= m && 0 <= j0 <= n ==> dp[i0, j0] == 0
    {
      for j := 1 to n + 1
        invariant forall i0, j0 :: 0 <= i0 < i && 0 <= j0 <= n ==> dp[i0, j0] == LcsLength(str1[..i0], str2[..j0])
        invariant forall j0 :: 0 <= j0 < j ==> dp[i, j0] == LcsLength(str1[..i], str2[..j0])
        invariant forall i0, j0 :: i < i0 <= m && 0 <= j0 <= n ==> dp[i0, j0] == 0
      {
        LcsStep(str1, str2, i, j);
        if str1[i - 1] == str2[j - 1] {
          dp[i, j] := dp[i - 1, j - 1] + 1;
        } else {
          dp[i, j] := Max(dp[i - 1, j], dp[i, j - 1]);
        }
      }
    }
  }

  /**
   * `extract_lcs`: walking the filled table back from the corner recovers a
   * common subsequence of the two strings of the greatest length.
   */
  method ExtractLcs(str1: string, str2: string, dp: array2<nat>) returns (lcs: string)
    requires dp.Length0 == |str1| + 1 && dp.Length1 == |str2| + 1
    requires forall i, j :: 0 <= i <= |str1| && 0 <= j <= |str2| ==> dp[i, j] == LcsLength(str1[..i], str2[..j])
    ensures IsSubsequence(lcs, str1) && IsSubsequence(lcs, str2)
    ensures |lcs| == LcsLength(str1, str2)
  {
    var i, j := |str1|, |str2|;
    var result: string := [];
    assert str1[..i] == str1 && str2[..j] == str2;
    while i > 0 && j > 0
      invariant 0 <= i <= |str1| && 0 <= j <= |str2|
      invariant IsSubsequence(Reverse(result), str1[i..]) && IsSubsequence(Reverse(result), str2[j..])
      invariant |result| + LcsLength(str1[..i], str2[..j]) == LcsLength(str1, str2)
      decreases i + j
    {
      LcsStep(str1, str2, i, j);
      assert str1[i - 1..][1..] == str1[i..];
      assert str2[j - 1..][1..] == str2[j..];
      if str1[i - 1] == str2[j - 1] {
        var tail := Reverse(result);
        assert (result + [str1[i - 1]])[..|result|] == result;
        assert Reverse(result + [str1[i - 1]]) == [str1[i - 1]] + tail;
        assert ([str1[i - 1]] + tail)[1..] == tail;
        result := result + [str1[i - 1]];
        i, j := i - 1, j - 1;
      } else if dp[i - 1, j] >= dp[i, j - 1] {
        i := i - 1;
      } else {
        j := j - 1;
      }
    }
    lcs := Reverse(result);
    SubsequenceOfSuffix(lcs, str1, i);
    SubsequenceOfSuffix(lcs, str2, j);
  }

  /** A scan past a character that is not the next anchor keeps the anchors ahead. */
  lemma ScanPast(lcs: string, k: nat, t: string, i: nat)
    requires k < |lcs| && i < |t| && IsSubsequence(lcs[k..], t[i..]) && t[i] != lcs[k]
    ensures i + 1 < |t| && IsSubsequence(lcs[k..], t[i + 1..])
  {
    assert t[i..][1..] == t[i + 1..];
  }

  /** Matching the next anchor consumes it on both sides. */
  lemma Consume(lcs: string, k: nat, t: string, i: nat)
    requires k < |lcs| && i < |t| && IsSubsequence(lcs[k..], t[i..]) && t[i] == lcs[k]
    ensures IsSubsequence(lcs[k + 1..], t[i + 1..])
  {
    MatchHead(lcs[k..], t[i..]);
    assert lcs[k..][1..] == lcs[k + 1..];
    assert t[i..][1..] == t[i + 1..];
  }

  /** Pushing the removal of `oldStr[i]`. */
  lemma PushRemove(ops: seq<DiffOp>, oldStr: string, i: nat, n: string, e: string)
    requires i < |oldStr| && Scripted(ops, oldStr[..i], n, e) && (ops == [] || ops[|ops| - 1].kind != Add)
    ensures Scripted(ops + [DiffOp(Remove, [oldStr[i]])], oldStr[..i + 1], n, e)
  {
    assert oldStr[..i + 1] == oldStr[..i] + [oldStr[i]];
    PushScript(ops, oldStr[..i], n, e, DiffOp(Remove, [oldStr[i]]));
  }

  /** Pushing the addition of `newStr[j]`. */
  lemma PushAdd(ops: seq<DiffOp>, o: string, newStr: string, j: nat, e: string)
    requires j < |newStr| && Scripted(ops, o, newStr[..j], e)
    ensures Scripted(ops + [DiffOp(Add, [newStr[j]])], o, newStr[..j + 1], e)
  {
    assert newStr[..j + 1] == newStr[..j] + [newStr[j]];
    PushScript(ops, o, newStr[..j], e, DiffOp(Add, [newStr[j]]));
  }

  /** Pushing the anchor `lcs[k]`, found at `oldStr[i]` and `newStr[j]`. */
  lemma PushEqual(ops: seq<DiffOp>, oldStr: string, i: nat, newStr: string, j: nat, lcs: string, k: nat)
    requires i < |oldStr| && j < |newStr| && k < |lcs| && oldStr[i] == lcs[k] == newStr[j]
    requires Scripted(ops, oldStr[..i], newStr[..j], lcs[..k])
    ensures Scripted(ops + [DiffOp(Equal, [lcs[k]])], oldStr[..i + 1], newStr[..j + 1], lcs[..k + 1])
  {
    assert oldStr[..i + 1] == oldStr[..i] + [lcs[k]];
    assert newStr[..j + 1] == newStr[..j] + [lcs[k]];
    assert lcs[..k + 1] == lcs[..k] + [lcs[k]];
    PushScript(ops, oldStr[..i], newStr[..j], lcs[..k], DiffOp(Equal, [lcs[k]]));
  }

  /**
   * One round of the outer loop of `diff_using_lcs`, for the anchor `lcs[k]`:
   * remove old characters up to its next occurrence in `oldStr`, add new
   * characters up to its next occurrence in `newStr`, then emit it. Both
   * scans stop inside their strings because the anchors ahead are a
   * subsequence of what is left of each.
   */
  method EmitAnchor(oldStr: string, newStr: string, lcs: string, ops0: seq<DiffOp>, i0: nat, j0: nat, k: nat)
    returns (ops: seq<DiffOp>, i: nat, j: nat)
    requires k < |lcs| && i0 <= |oldStr| && j0 <= |newStr|
    requires IsSubsequence(lcs[k..], oldStr[i0..]) && IsSubsequence(lcs[k..], newStr[j0..])
    requires Scripted(ops0, oldStr[..i0], newStr[..j0], lcs[..k]) && (ops0 == [] || ops0[|ops0| - 1].kind == Equal)
    ensures i <= |oldStr| && j <= |newStr|
    ensures IsSubsequence(lcs[k + 1..], oldStr[i..]) && IsSubsequence(lcs[k + 1..], newStr[j..])
    ensures Scripted(ops, oldStr[..i], newStr[..j], lcs[..k + 1]) && ops != [] && ops[|ops| - 1].kind == Equal
    ensures i0 < i && oldStr[i - 1] == lcs[k] && forall p :: i0 <= p < i - 1 ==> oldStr[p] != lcs[k]
    ensures j0 < j && newStr[j - 1] == lcs[k] && forall p :: j0 <= p < j - 1 ==> newStr[p] != lcs[k]
    ensures |ops| == |ops0| + (i - 1 - i0) + (j - 1 - j0) + 1 && ops[..|ops0|] == ops0
    ensures forall p :: |ops0| <= p < |ops0| + (i - 1 - i0) ==> ops[p] == DiffOp(Remove, [oldStr[i0 + (p - |ops0|)]])
    ensures forall p :: |ops0| + (i - 1 - i0) <= p < |ops| - 1 ==> ops[p] == DiffOp(Add, [newStr[j0 + (p - |ops0| - (i - 1 - i0))]])
    ensures ops[|ops| - 1] == DiffOp(Equal, [lcs[k]])
  {
    var removed, i1 := RemoveUntilAnchor(oldStr, newStr[..j0], lcs, ops0, i0, k);
    var added, j1 := AddUntilAnchor(oldStr[..i1], newStr, lcs, removed, j0, k);
    Consume(lcs, k, oldStr, i1);
    Consume(lcs, k, newStr, j1);
    PushEqual(added, oldStr, i1, newStr, j1, lcs, k);
    ops := added + [DiffOp(Equal, [lcs[k]])];
    i, j := i1 + 1, j1 + 1;
    RoundShape(oldStr, newStr, ops0, removed, added, DiffOp(Equal, [lcs[k]]), i0, i1, j0, j1);
  }

  /**
   * The shape of one round: `ops0`, then the removals of `oldStr[i0..i1]`,
   * then the additions of `newStr[j0..j1]`, then the anchor.
   */
  lemma RoundShape(oldStr: string, newStr: string, ops0: seq<DiffOp>, removed: seq<DiffOp>, added: seq<DiffOp>, anchor: DiffOp,
                   i0: nat, i1: nat, j0: nat, j1: nat)
    requires i0 <= i1 <= |oldStr| && j0 <= j1 <= |newStr|
    requires |removed| == |ops0| + (i1 - i0) && removed[..|ops0|] == ops0
    requires forall p :: |ops0| <= p < |removed| ==> removed[p] == DiffOp(Remove, [oldStr[i0 + (p - |ops0|)]])
    requires |added| == |removed| + (j1 - j0) && added[..|removed|] == removed
    requires forall p :: |removed| <= p < |added| ==> added[p] == DiffOp(Add, [newStr[j0 + (p - |removed|)]])
    ensures var ops := added + [anchor];
            && |ops| == |ops0| + (i1 - i0) + (j1 - j0) + 1 && ops[..|ops0|] == ops0
            && (forall p :: |ops0| <= p < |ops0| + (i1 - i0) ==> ops[p] == DiffOp(Remove, [oldStr[i0 + (p - |ops0|)]]))
            && (forall p :: |ops0| + (i1 - i0) <= p < |ops| - 1 ==> ops[p] == DiffOp(Add, [newStr[j0 + (p - |ops0| - (i1 - i0))]]))
            && ops[|ops| - 1] == anchor
  {
    var ops := added + [anchor];
    assert forall p :: 0 <= p < |removed| ==> added[..|removed|][p] == added[p];
    assert forall p :: 0 <= p < |added| ==> ops[p] == added[p];
    assert ops[..|ops0|] == ops0 by {
      assert ops[..|ops0|] == added[..|ops0|] == removed[..|ops0|];
    }
  }

  /**
   * The first inner loop of `diff_using_lcs`: remove old characters until
   * the anchor `lcs[k]` is reached in `oldStr`.
   */
  method RemoveUntilAnchor(oldStr: string, n: string, lcs: string, ops0: seq<DiffOp>, i0: nat, k: nat)
    returns (ops: seq<DiffOp>, i: nat)
    requires k < |lcs| && i0 <= |oldStr| && IsSubsequence(lcs[k..], oldStr[i0..])
    requires Scripted(ops0, oldStr[..i0], n, lcs[..k]) && (ops0 == [] || ops0[|ops0| - 1].kind == Equal)
    ensures i0 <= i < |oldStr| && oldStr[i] == lcs[k] && IsSubsequence(lcs[k..], oldStr[i..])
    ensures forall p :: i0 <= p < i ==> oldStr[p] != lcs[k]
    ensures |ops| == |ops0| + (i - i0) && ops[..|ops0|] == ops0
    ensures forall p :: |ops0| <= p < |ops| ==> ops[p] == DiffOp(Remove, [oldStr[i0 + (p - |ops0|)]])
    ensures Scripted(ops, oldStr[..i], n, lcs[..k])
  {
    ops, i := ops0, i0;
    while oldStr[i] != lcs[k]
      invariant RemoveScan(oldStr, n, lcs, ops0, i0, k, ops, i)
      decreases |oldStr| - i
    {
      RemoveScanStep(oldStr, n, lcs, ops0, i0, k, ops, i);
      ops := ops + [DiffOp(Remove, [oldStr[i]])];
      i := i + 1;
    }
  }

  /**
   * What the removal scan knows after removing `oldStr[i0..i]`: no
   * character of it is the anchor, each became one removal after `ops0`,
   * and the script still ends in something other than an addition.
   */
  predicate RemoveScan(oldStr: string, n: string, lcs: string, ops0: seq<DiffOp>, i0: nat, k: nat,
                       ops: seq<DiffOp>, i: nat)
  {
    && k < |lcs| && i0 <= i < |oldStr| && IsSubsequence(lcs[k..], oldStr[i..])
    && (forall p :: i0 <= p < i ==> oldStr[p] != lcs[k])
    && |ops| == |ops0| + (i - i0) && ops[..|ops0|] == ops0
    && (forall p :: |ops0| <= p < |ops| ==> ops[p] == DiffOp(Remove, [oldStr[i0 + (p - |ops0|)]]))
    && Scripted(ops, oldStr[..i], n, lcs[..k]) && (ops == [] || ops[|ops| - 1].kind != Add)
  }

  /** One turn of the removal scan keeps `RemoveScan`. */
  lemma RemoveScanStep(oldStr: string, n: string, lcs: string, ops0: seq<DiffOp>, i0: nat, k: nat,
                       ops: seq<DiffOp>, i: nat)
    requires RemoveScan(oldStr, n, lcs, ops0, i0, k, ops, i) && oldStr[i] != lcs[k]
    ensures i + 1 < |oldStr|
    ensures RemoveScan(oldStr, n, lcs, ops0, i0, k, ops + [DiffOp(Remove, [oldStr[i]])], i + 1)
  {
    ScanPast(lcs, k, oldStr, i);
    PushRemove(ops, oldStr, i, n, lcs[..k]);
    ExtendRun(ops0, ops, Remove, oldStr, i0, i);
  }

  /**
   * A scan that has turned `s[i0..i]` into operations of one kind after
   * `ops0` still has that shape after pushing the operation for `s[i]`.
   */
  lemma ExtendRun(ops0: seq<DiffOp>, ops: seq<DiffOp>, kind: OpKind, s: string, i0: nat, i: nat)
    requires i0 <= i < |s| && |ops| == |ops0| + (i - i0) && ops[..|ops0|] == ops0
    requires forall p :: |ops0| <= p < |ops| ==> ops[p] == DiffOp(kind, [s[i0 + (p - |ops0|)]])
    ensures var longer := ops + [DiffOp(kind, [s[i]])];
            && |longer| == |ops0| + (i + 1 - i0) && longer[..|ops0|] == ops0
            && longer[|longer| - 1] == DiffOp(kind, [s[i]])
            && forall p :: |ops0| <= p < |longer| ==> longer[p] == DiffOp(kind, [s[i0 + (p - |ops0|)]])
  {
    var longer := ops + [DiffOp(kind, [s[i]])];
    assert longer[..|ops0|] == ops[..|ops0|];
    assert forall p :: 0 <= p < |ops| ==> longer[p] == ops[p];
  }

  /**
   * The second inner loop of `diff_using_lcs`: add new characters until the
   * anchor `lcs[k]` is reached in `newStr`.
   */
  method AddUntilAnchor(o: string, newStr: string, lcs: string, ops0: seq<DiffOp>, j0: nat, k: nat)
    returns (ops: seq<DiffOp>, j: nat)
    requires k < |lcs| && j0 <= |newStr| && IsSubsequence(lcs[k..], newStr[j0..])
    requires Scripted(ops0, o, newStr[..j0], lcs[..k])
    ensures j0 <= j < |newStr| && newStr[j] == lcs[k] && IsSubsequence(lcs[k..], newStr[j..])
    ensures forall p :: j0 <= p < j ==> newStr[p] != lcs[k]
    ensures |ops| == |ops0| + (j - j0) && ops[..|ops0|] == ops0
    ensures forall p :: |ops0| <= p < |ops| ==> ops[p] == DiffOp(Add, [newStr[j0 + (p - |ops0|)]])
    ensures Scripted(ops, o, newStr[..j], lcs[..k])
  {
    ops, j := ops0, j0;
    while newStr[j] != lcs[k]
      invariant j0 <= j < |newStr| && IsSubsequence(lcs[k..], newStr[j..])
      invariant forall p :: j0 <= p < j ==> newStr[p] != lcs[k]
      invariant |ops| == |ops0| + (j - j0) && ops[..|ops0|] == ops0
      invariant forall p :: |ops0| <= p < |ops| ==> ops[p] == DiffOp(Add, [newStr[j0 + (p - |ops0|)]])
      invariant Scripted(ops, o, newStr[..j], lcs[..k])
      decreases |newStr| - j
    {
      ScanPast(lcs, k, newStr, j);
      PushAdd(ops, o, newStr, j, lcs[..k]);
      ExtendRun(ops0, ops, Add, newStr, j0, j);
      ops := ops + [DiffOp(Add, [newStr[j]])];
      j := j + 1;
    }
  }

  /**
   * The first trailing loop of `diff_using_lcs`: once every anchor is
   * emitted, remove what is left of `oldStr`, one character per operation.
   */
  method RemoveRest(oldStr: string, n: string, e: string, ops0: seq<DiffOp>, i0: nat)
    returns (ops: seq<DiffOp>)
    requires i0 <= |oldStr| && Scripted(ops0, oldStr[..i0], n, e) && (ops0 == [] || ops0[|ops0| - 1].kind != Add)
    ensures |ops| == |ops0| + (|oldStr| - i0) && ops[..|ops0|] == ops0
    ensures forall p :: |ops0| <= p < |ops| ==> ops[p] == DiffOp(Remove, [oldStr[i0 + (p - |ops0|)]])
    ensures Scripted(ops, oldStr, n, e)
  {
    var i := i0;
    ops := ops0;
    while i < |oldStr|
      invariant i0 <= i <= |oldStr|
      invariant |ops| == |ops0| + (i - i0) && ops[..|ops0|] == ops0
      invariant forall p :: |ops0| <= p < |ops| ==> ops[p] == DiffOp(Remove, [oldStr[i0 + (p - |ops0|)]])
      invariant Scripted(ops, oldStr[..i], n, e) && (ops == [] || ops[|ops| - 1].kind != Add)
    {
      PushRemove(ops, oldStr, i, n, e);
      ExtendRun(ops0, ops, Remove, oldStr, i0, i);
      ops := ops + [DiffOp(Remove, [oldStr[i]])];
      i := i + 1;
    }
    assert oldStr[..i] == oldStr;
  }

  /**
   * The second trailing loop of `diff_using_lcs`: add what is left of
   * `newStr`, one character per operation.
   */
  method AddRest(o: string, newStr: string, e: string, ops0: seq<DiffOp>, j0: nat)
    returns (ops: seq<DiffOp>)
    requires j0 <= |newStr| && Scripted(ops0, o, newStr[..j0], e)
    ensures |ops| == |ops0| + (|newStr| - j0) && ops[..|ops0|] == ops0
    ensures forall p :: |ops0| <= p < |ops| ==> ops[p] == DiffOp(Add, [newStr[j0 + (p - |ops0|)]])
    ensures Scripted(ops, o, newStr, e)
  {
    var j := j0;
    ops := ops0;
    while j < |newStr|
      invariant j0 <= j <= |newStr|
      invariant |ops| == |ops0| + (j - j0) && ops[..|ops0|] == ops0
      invariant forall p :: |ops0| <= p < |ops| ==> ops[p] == DiffOp(Add, [newStr[j0 + (p - |ops0|)]])
      invariant Scripted(ops, o, newStr[..j], e)
    {
      PushAdd(ops, o, newStr, j, e);
      ExtendRun(ops0, ops, Add, newStr, j0, j);
      ops := ops + [DiffOp(Add, [newStr[j]])];
      j := j + 1;
    }
    assert newStr[..j] == newStr;
  }

  /**
   * `diff_using_lcs`: given a common subsequence of the two strings, emit
   * each of its characters as an anchor after the removals and additions
   * that lead up to it, then the rest of each string. The script reads the
   * old string, writes the new one, anchors exactly `lcs`, has one
   * character per operation and never puts an addition right before a
   * removal.
   */
  method DiffUsingLcs(oldStr: string, newStr: string, lcs: string) returns (ops: seq<DiffOp>)
    requires IsSubsequence(lcs, oldStr) && IsSubsequence(lcs, newStr)
    ensures Singletons(ops) && RemovesBeforeAdds(ops)
    ensures OldText(ops) == oldStr && NewText(ops) == newStr && EqualText(ops) == lcs
    ensures KindCount(ops, Equal) == |lcs|
    ensures KindCount(ops, Remove) == |oldStr| - |lcs|
    ensures KindCount(ops, Add) == |newStr| - |lcs|
  {
    var i: nat, j: nat, k: nat := 0, 0, 0;
    ops := [];

    while k < |lcs|
      invariant k <= |lcs| && i <= |oldStr| && j <= |newStr|
      invariant IsSubsequence(lcs[k..], oldStr[i..]) && IsSubsequence(lcs[k..], newStr[j..])
      invariant Scripted(ops, oldStr[..i], newStr[..j], lcs[..k]) && (ops == [] || ops[|ops| - 1].kind == Equal)
      decreases |lcs| - k
    {
      ops, i, j := EmitAnchor(oldStr, newStr, lcs, ops, i, j, k);
      k := k + 1;
    }

    assert lcs[..k] == lcs;
    ops := RemoveRest(oldStr, newStr[..j], lcs, ops, i);
    ops := AddRest(oldStr, newStr, lcs, ops, j);
    ScriptCounts(ops);
  }

  /**
   * `diff`: the three steps chained. The script turns `oldStr` into `newStr`
   * with `LcsLength` anchors, hence with the fewest removals and additions
   * any script of single characters can have (`ScriptMinimal`).
   */
  method Diff(oldStr: string, newStr: string) returns (ops: seq<DiffOp>)
    ensures Singletons(ops) && RemovesBeforeAdds(ops)
    ensures OldText(ops) == oldStr && NewText(ops) == newStr
    ensures KindCount(ops, Equal) == LcsLength(oldStr, newStr)
    ensures KindCount(ops, Remove) + KindCount(ops, Add) == |oldStr| + |newStr| - 2 * LcsLength(oldStr, newStr)
  {
    var dp := BuildLcs(oldStr, newStr);
    var lcs := ExtractLcs(oldStr, newStr, dp);
    ops := DiffUsingLcs(oldStr, newStr, lcs);
  }
}
