/**
 * Reference definitions for line-structured text: splitting a string at every
 * line feed and joining lines back together. The line-editing functions of the
 * shader console are specified against these.
 */
module Lines {

  /** A text that uses line feeds only (no carriage return anywhere). */
  predicate LfOnly(s: string) {
    '\r' !in s
  }

  /** Number of line feeds in `s`. */
  function Newlines(s: string): nat {
    multiset(s)['\n']
  }

  /** Line feeds add up over concatenation. */
  lemma NewlinesConcat(a: string, b: string)
    ensures Newlines(a + b) == Newlines(a) + Newlines(b)
  {
    assert multiset(a + b) == multiset(a) + multiset(b);
  }

  /** A text has no line feed exactly when it counts none. */
  lemma NewlinesZero(a: string)
    ensures Newlines(a) == 0 <==> '\n' !in a
  {
    assert '\n' in a <==> '\n' in multiset(a);
  }

  /**
   * The lines of `s`: the maximal runs of characters between line feeds, first
   * line first. A string with k line feeds has k + 1 lines, so "" has one empty
   * line and a string ending in '\n' has an empty last line.
   */
  function Split(s: string): (lines: seq<string>)
    ensures |lines| >= 1
  {
    if |s| == 0 then [""] else ExtendLast(Split(s[..|s| - 1]), s[|s| - 1])
  }

  /** No line of a split contains a line feed. */
  lemma {:induction false} SplitLinesHaveNoNewline(s: string)
    ensures forall k :: 0 <= k < |Split(s)| ==> '\n' !in Split(s)[k]
  {
    if |s| > 0 {
      var p := s[..|s| - 1];
      SplitLinesHaveNoNewline(p);
      SplitSnoc(p, s[|s| - 1]);
      assert s == p + [s[|s| - 1]];
    }
  }

  /** The lines joined with a line feed between consecutive lines. */
  function Join(lines: seq<string>): (s: string)
    requires |lines| >= 1
    ensures |s| >= |lines| - 1
  {
    if |lines| == 1 then lines[0]
    else Join(lines[..|lines| - 1]) + "\n" + lines[|lines| - 1]
  }

  /** Joining k + 1 line-feed-free lines puts exactly k line feeds in the text. */
  lemma {:induction false} JoinNewlines(lines: seq<string>)
    requires |lines| >= 1
    requires forall k :: 0 <= k < |lines| ==> '\n' !in lines[k]
    ensures Newlines(Join(lines)) == |lines| - 1
  {
    var last := lines[|lines| - 1];
    NewlinesZero(last);
    if |lines| > 1 {
      var init := lines[..|lines| - 1];
      assert forall k :: 0 <= k < |init| ==> init[k] == lines[k];
      JoinNewlines(init);
      NewlinesConcat(Join(init) + "\n", last);
      NewlinesConcat(Join(init), "\n");
    }
  }

  /** A string without line feeds is a single line. */
  lemma {:induction false} SplitSingle(s: string)
    requires '\n' !in s
    ensures Split(s) == [s]
  {
    if |s| > 0 {
      var p := s[..|s| - 1];
      assert s == p + [s[|s| - 1]];
      assert '\n' !in p by {
        forall k | 0 <= k < |p| ensures p[k] != '\n' {
          assert p[k] == s[k];
        }
      }
      SplitSingle(p);
      assert s[|s| - 1] in s;
    }
  }

  /** Splitting distributes over a line feed: the text before it and the text after it split independently. */
  lemma {:induction false} SplitAppend(a: string, b: string)
    ensures Split(a + "\n" + b) == Split(a) + Split(b)
  {
    if |b| == 0 {
      SplitSnoc(a, '\n');
      assert a + "\n" + b == a + ['\n'];
    } else {
      var b' := b[..|b| - 1];
      var c := b[|b| - 1];
      var x := a + "\n" + b';
      assert a + "\n" + b == x + [c];
      assert b == b' + [c];
      SplitAppend(a, b');
      SplitSnoc(x, c);
      SplitSnoc(b', c);
      ExtendLastDistributes(Split(a), Split(b'), c);
    }
  }

  /** The lines after one more character: a line feed opens a new empty line, any other character extends the last line. */
  function ExtendLast(L: seq<string>, c: char): (M: seq<string>)
    requires |L| >= 1
    ensures |M| >= 1
  {
    if c == '\n' then L + [""] else L[..|L| - 1] + [L[|L| - 1] + [c]]
  }

  lemma ExtendLastDistributes(A: seq<string>, B: seq<string>, c: char)
    requires |B| >= 1
    ensures ExtendLast(A + B, c) == A + ExtendLast(B, c)
  {
    if c != '\n' {
      assert (A + B)[..|A + B| - 1] == A + B[..|B| - 1];
    }
  }

  /** One step of `Split`: the effect of appending one character. */
  lemma SplitSnoc(p: string, c: char)
    ensures Split(p + [c]) == ExtendLast(Split(p), c)
  {
    assert (p + [c])[..|p|] == p;
  }

  /** The number of lines is one more than the number of line feeds. */
  lemma {:induction false} SplitLength(s: string)
    ensures |Split(s)| == Newlines(s) + 1
  {
    if |s| > 0 {
      SplitLength(s[..|s| - 1]);
      assert s == s[..|s| - 1] + [s[|s| - 1]];
      assert multiset(s) == multiset(s[..|s| - 1]) + multiset{s[|s| - 1]};
    }
  }

  /** Joining the lines of a string gives the string back. */
  lemma {:induction false} JoinSplit(s: string)
    ensures Join(Split(s)) == s
  {
    if |s| > 0 {
      var p := s[..|s| - 1];
      var c := s[|s| - 1];
      assert s == p + [c];
      JoinSplit(p);
      SplitSnoc(p, c);
      JoinExtendLast(Split(p), c);
    }
  }

  /** Extending the lines by one character extends their join by that character. */
  lemma JoinExtendLast(L: seq<string>, c: char)
    requires |L| >= 1
    ensures Join(ExtendLast(L, c)) == Join(L) + [c]
  {
    if c == '\n' {
      JoinOpenLine(L);
    } else if |L| > 1 {
      JoinExtendLongLast(L, c);
    }
  }

  lemma JoinOpenLine(L: seq<string>)
    requires |L| >= 1
    ensures Join(L + [""]) == Join(L) + "\n"
  {
    var M := L + [""];
    assert M[..|M| - 1] == L;
  }

  lemma JoinExtendLongLast(L: seq<string>, c: char)
    requires |L| > 1 && c != '\n'
    ensures Join(ExtendLast(L, c)) == Join(L) + [c]
  {
    var init, last := L[..|L| - 1], L[|L| - 1];
    var M := init + [last + [c]];
    assert M[..|M| - 1] == init;
    assert Join(M) == Join(init) + "\n" + (last + [c]);
  }

  /** Splitting a join of line-feed-free lines gives the lines back. */
  lemma {:induction false} SplitJoin(lines: seq<string>)
    requires |lines| >= 1
    requires forall k :: 0 <= k < |lines| ==> '\n' !in lines[k]
    ensures Split(Join(lines)) == lines
  {
    var last := lines[|lines| - 1];
    SplitSingle(last);
    if |lines| > 1 {
      var init := lines[..|lines| - 1];
      InitLinesHaveNoNewline(lines);
      SplitJoin(init);
      SplitAppend(Join(init), last);
      SnocLast(lines);
    }
  }

  lemma InitLinesHaveNoNewline(lines: seq<string>)
    requires |lines| >= 1
    requires forall k :: 0 <= k < |lines| ==> '\n' !in lines[k]
    ensures var init := lines[..|lines| - 1];
      forall k :: 0 <= k < |init| ==> '\n' !in init[k]
  {
    var init := lines[..|lines| - 1];
    assert forall k :: 0 <= k < |init| ==> init[k] == lines[k];
  }

  lemma SnocLast<T>(xs: seq<T>)
    requires |xs| >= 1
    ensures xs[..|xs| - 1] + [xs[|xs| - 1]] == xs
  {
  }

  /** The lines after the first one of a text `b` that is empty or begins a new line. */
  function LaterLines(b: string): seq<string> {
    if |b| == 0 then [] else Split(b[1..])
  }

  /**
   * A line-feed-free text `x` followed by a rest `b` that is empty or starts a
   * new line: `x` is the first line, and the lines of the rest follow it.
   */
  lemma SplitLeadingLine(x: string, b: string)
    requires '\n' !in x
    requires |b| == 0 || b[0] == '\n'
    ensures Split(x + b) == [x] + LaterLines(b)
    ensures |LaterLines(b)| == Newlines(b)
  {
    SplitSingle(x);
    if |b| == 0 {
      assert x + b == x;
    } else {
      assert x + b == x + "\n" + b[1..];
      SplitAppend(x, b[1..]);
      SplitLength(b[1..]);
      assert b == [b[0]] + b[1..];
      assert multiset(b) == multiset{'\n'} + multiset(b[1..]);
    }
  }

  /** The lines of a line-feed-only text are line-feed-only. */
  lemma {:induction false} SplitLinesLfOnly(s: string)
    requires LfOnly(s)
    ensures forall k :: 0 <= k < |Split(s)| ==> LfOnly(Split(s)[k])
  {
    if |s| > 0 {
      var p := s[..|s| - 1];
      var c := s[|s| - 1];
      assert s == p + [c];
      assert forall k :: 0 <= k < |p| ==> p[k] == s[k];
      assert c != '\r' by { assert c in s; }
      SplitLinesLfOnly(p);
      SplitSnoc(p, c);
    }
  }

  /**
   * Appending a line-feed-free text `t` extends the last line of `a` by `t` and
   * leaves the earlier lines as they are.
   */
  lemma {:induction false} SplitAppendText(a: string, t: string)
    requires '\n' !in t
    ensures var L := Split(a);
      Split(a + t) == L[..|L| - 1] + [L[|L| - 1] + t]
  {
    var L := Split(a);
    if |t| == 0 {
      assert a + t == a;
      assert L[|L| - 1] + t == L[|L| - 1];
      SnocLast(L);
    } else {
      var t' := t[..|t| - 1];
      var c := t[|t| - 1];
      assert t == t' + [c];
      assert a + t == (a + t') + [c];
      assert forall k :: 0 <= k < |t'| ==> t'[k] == t[k];
      assert c != '\n' by { assert c in t; }
      SplitAppendText(a, t');
      SplitSnoc(a + t', c);
      var M := L[..|L| - 1] + [L[|L| - 1] + t'];
      assert M[..|M| - 1] == L[..|L| - 1];
      assert M[|M| - 1] + [c] == L[|L| - 1] + t;
    }
  }

  /**
   * Appending a line-feed-free text `t` and a line feed completes the last line
   * with `t` and opens a new empty line.
   */
  lemma SplitAppendLine(a: string, t: string)
    requires '\n' !in t
    ensures var L := Split(a);
      Split(a + t + "\n") == L[..|L| - 1] + [L[|L| - 1] + t, ""]
  {
    SplitAppendText(a, t);
    assert a + t + "\n" == (a + t) + ['\n'];
    SplitSnoc(a + t, '\n');
  }
}
