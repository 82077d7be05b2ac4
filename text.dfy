/** Option, the value-or-absent wrapper used for nullable and optional fields. */
module Optional {
  datatype Option<+T> = None | Some(value: T)
}

/**
 * The helpers of the JavaScript runtime that the diff code relies on:
 * `String.prototype.split("\n")`, the inverse `join("\n")` and `Math.max`.
 * Strings are sequences of characters.
 */
module Text {

  /** `Math.max` on counts and lengths. */
  function Max(x: nat, y: nat): (m: nat)
    ensures m >= x && m >= y && (m == x || m == y)
  {
    if x >= y then x else y
  }

  const NewLine: char := '\n'

  /** `parts.join("\n")`: the parts with one newline between neighbours. */
  function Join(parts: seq<string>): string
  {
    if |parts| == 0 then ""
    else if |parts| == 1 then parts[0]
    else Join(parts[..|parts| - 1]) + [NewLine] + parts[|parts| - 1]
  }

  /** The parts, each followed by a newline: how a line-oriented text is written out. */
  function Terminated(lines: seq<string>): string
  {
    if lines == [] then ""
    else Terminated(lines[..|lines| - 1]) + lines[|lines| - 1] + [NewLine]
  }

  /** No part holds a newline. */
  predicate NoNewLines(parts: seq<string>)
  {
    forall k :: 0 <= k < |parts| ==> NewLine !in parts[k]
  }

  /**
   * `s.split("\n")`: always at least one part (the empty string splits into
   * one empty part). `SplitJoins` states what the parts are.
   */
  function Split(s: string): (parts: seq<string>)
    ensures |parts| >= 1
  {
    if s == [] then [""]
    else
      var init := Split(s[..|s| - 1]);
      var c := s[|s| - 1];
      if c == NewLine then init + [""]
      else init[..|init| - 1] + [init[|init| - 1] + [c]]
  }

  /** No part holds a newline, and joining the parts back with newlines gives the text. */
  lemma {:induction false} SplitJoins(s: string)
    ensures NoNewLines(Split(s))
    ensures Join(Split(s)) == s
  {
    if s != [] {
      var init := Split(s[..|s| - 1]);
      var c := s[|s| - 1];
      SplitJoins(s[..|s| - 1]);
      assert s == s[..|s| - 1] + [c];
      if c != NewLine {
        ExtendLastPart(init, c);
      } else {
        OpenPart(init);
      }
    }
  }

  /** Extending the last part by a character that is not a newline extends the joined text. */
  lemma ExtendLastPart(parts: seq<string>, c: char)
    requires |parts| >= 1 && NoNewLines(parts) && c != NewLine
    ensures var ext := parts[..|parts| - 1] + [parts[|parts| - 1] + [c]];
            NoNewLines(ext) && Join(ext) == Join(parts) + [c]
  {
    var ext := parts[..|parts| - 1] + [parts[|parts| - 1] + [c]];
    assert ext[..|ext| - 1] == parts[..|parts| - 1];
    assert forall k :: 0 <= k < |ext| - 1 ==> ext[k] == parts[k];
  }

  /** Appending an empty part adds one newline to the joined text. */
  lemma OpenPart(parts: seq<string>)
    requires |parts| >= 1 && NoNewLines(parts)
    ensures NoNewLines(parts + [""]) && Join(parts + [""]) == Join(parts) + [NewLine]
  {
    assert (parts + [""])[..|parts|] == parts;
  }

  /** Splitting a text extended by one character: a newline opens a new part, anything else extends the last. */
  lemma SplitSnoc(s: string, c: char)
    ensures var parts := Split(s);
            Split(s + [c]) == if c == NewLine then parts + [""]
                              else parts[..|parts| - 1] + [parts[|parts| - 1] + [c]]
  {
    assert (s + [c])[..|s|] == s;
  }

  /** A terminated text is the joined text plus one final newline. */
  lemma {:induction false} TerminatedIsJoinPlusNewLine(lines: seq<string>)
    requires |lines| >= 1
    ensures Terminated(lines) == Join(lines) + [NewLine]
  {
    if |lines| > 1 {
      TerminatedIsJoinPlusNewLine(lines[..|lines| - 1]);
    } else {
      assert lines[..0] == [];
    }
  }

  /** The last character of a text is that of its last part, if that part is not empty. */
  lemma {:induction false} JoinEndsWithLastPart(parts: seq<string>)
    requires |parts| >= 1 && parts[|parts| - 1] != ""
    ensures |Join(parts)| >= 1
    ensures Join(parts)[|Join(parts)| - 1] == parts[|parts| - 1][|parts[|parts| - 1]| - 1]
  {
  }

  /**
   * Newline-free lines are determined by their terminated text: writing out
   * lines is injective.
   */
  lemma {:induction false} TerminatedInjective(a: seq<string>, b: seq<string>)
    requires NoNewLines(a) && NoNewLines(b)
    requires Terminated(a) == Terminated(b)
    ensures a == b
  {
    if a == [] || b == [] {
      if a != [] {
        TerminatedNonEmpty(a);
      }
      if b != [] {
        TerminatedNonEmpty(b);
      }
    } else {
      var a0, x := a[..|a| - 1], a[|a| - 1];
      var b0, y := b[..|b| - 1], b[|b| - 1];
      var ta, tb := Terminated(a0), Terminated(b0);
      assert ta + x + [NewLine] == tb + y + [NewLine];
      assert ta + x == tb + y by {
        assert ta + x == (ta + x + [NewLine])[..|ta + x|];
        assert tb + y == (tb + y + [NewLine])[..|tb + y|];
      }
      assert NoNewLines(a0) && NoNewLines(b0) by {
        assert forall k :: 0 <= k < |a0| ==> a0[k] == a[k];
        assert forall k :: 0 <= k < |b0| ==> b0[k] == b[k];
      }
      if a0 != [] {
        TerminatedNonEmpty(a0);
      }
      if b0 != [] {
        TerminatedNonEmpty(b0);
      }
      if |x| < |y| {
        ShorterLastLine(ta, x, tb, y);
      } else if |y| < |x| {
        ShorterLastLine(tb, y, ta, x);
      } else {
        assert x == (ta + x)[|ta|..];
        assert y == (tb + y)[|tb|..];
        assert ta == (ta + x)[..|ta|];
        assert tb == (tb + y)[..|tb|];
        TerminatedInjective(a0, b0);
      }
    }
  }

  /** A non-empty list of lines writes out to a text that ends in a newline. */
  lemma TerminatedNonEmpty(lines: seq<string>)
    requires lines != []
    ensures |Terminated(lines)| >= 1 && Terminated(lines)[|Terminated(lines)| - 1] == NewLine
  {
  }

  /**
   * Helper for injectivity: when `ta + x == tb + y` with `x` shorter than `y`
   * and `y` newline-free, `ta` is neither empty nor newline-terminated.
   */
  lemma ShorterLastLine(ta: string, x: string, tb: string, y: string)
    requires ta + x == tb + y
    requires |x| < |y|
    requires NewLine !in y
    ensures ta != "" && ta[|ta| - 1] != NewLine
  {
    var p := |ta| - 1;
    assert p >= |tb|;
    assert (ta + x)[p] == ta[p];
    assert (tb + y)[p] == y[p - |tb|];
  }
}
