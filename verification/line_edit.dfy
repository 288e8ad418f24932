/**
 * The two line functions of the shader console: fetching the l-th line counted
 * from the end of the shader source, and replacing it. Both scan the string
 * backwards from its last character, exactly as the console does, including the
 * step over a carriage return that precedes a line feed.
 */
module LineEdit {
  import opened Wrappers
  import opened Lines

  /**
   * Texts that begin with "\r\n" are outside the functions' domain. When a
   * scan reaches the line feed at index 1 without having found the wanted
   * line, the carriage-return step moves the unsigned index to 0, the loop's
   * decrement wraps it to 2^32 - 1, and the next read `s[i]` is out of range.
   * The exclusion is wider than that: when the wanted line ends at that line
   * feed the scan returns normally (line 0 of "\r\nab" is "ab").
   */
  predicate NoWrap(s: string) {
    !(|s| >= 2 && s[0] == '\r' && s[1] == '\n')
  }

  /** The text after dropping one leading line feed, which the scans never treat as a separator. */
  function Body(s: string): string {
    if |s| > 0 && s[0] == '\n' then s[1..] else s
  }

  /**
   * A fetched line and the out-of-bounds flag: `None` when the flag was not
   * written (the caller's initial value stays), `Some(b)` when it was set to `b`.
   */
  datatype Fetched = Fetched(line: string, outOfBounds: Option<bool>)

  /**
   * The backward loop of the line fetcher at index `i`, having passed `current`
   * line feeds, with `line` the characters collected since the last one.
   */
  function ScanLine(s: string, l: nat, i: nat, current: nat, line: string): (r: Fetched)
    requires i < |s| && NoWrap(s)
    requires '\n' !in line
    ensures '\n' !in r.line
    decreases i
  {
    if i == 0 then
      Fetched(if s[0] != '\n' then [s[0]] + line else line, Some(current < l))
    else if s[i] == '\n' then
      var j := if s[i - 1] == '\r' then i - 1 else i;
      if current == l then Fetched(line, None)
      else ScanLine(s, l, j - 1, current + 1, "")
    else ScanLine(s, l, i - 1, current, [s[i]] + line)
  }

  /** The l-th line from the end of `s` (line 0 is the last line). */
  function GetLineFromEnd(s: string, l: nat): (r: Fetched)
    requires NoWrap(s)
    ensures '\n' !in r.line
    ensures |s| == 0 ==> r.line == "" && r.outOfBounds == None
  {
    if |s| == 0 then Fetched("", None) else ScanLine(s, l, |s| - 1, 0, "")
  }

  /**
   * Where the backward loop of the line replacer stopped: at the `break`, with
   * `i` the loop index (moved onto a preceding '\r' if there is one) and
   * `newline` the index of the line feed found; or by running down to index 0.
   * `end` is the last index of the line to replace.
   */
  datatype Stop =
    | Broke(i: nat, newline: nat, current: nat, end: nat)
    | Finished(current: nat, end: nat)

  function ScanReplace(s: string, li: nat, i: nat, current: nat, end: nat): (st: Stop)
    requires i <= end < |s| && NoWrap(s)
    ensures st.end < |s|
    ensures st.Broke? ==> st.current == li && st.i <= st.newline <= st.end && st.newline <= st.i + 1
    decreases i
  {
    if i == 0 then Finished(current, end)
    else if s[i] == '\n' then
      var j := if s[i - 1] == '\r' then i - 1 else i;
      if current == li then Broke(j, i, current, end)
      else ScanReplace(s, li, j - 1, current + 1, j - 1)
    else ScanReplace(s, li, i - 1, current, end)
  }

  /**
   * The line replacer as the console writes it: the replaced range starts one
   * past the loop index, which the carriage-return step has already moved back.
   */
  function ReplaceLineFromEndAsWritten(s: string, li: nat, l: string): (r: string)
    requires NoWrap(s)
    ensures |s| == 0 ==> r == s
  {
    if |s| == 0 then s
    else
      var st := ScanReplace(s, li, |s| - 1, 0, |s| - 1);
      if st.current == li then ReplacedAsWritten(s, st, l) else s
  }

  /** The console's range: one past the loop index after a break, else from index 0. */
  function ReplacedAsWritten(s: string, st: Stop, l: string): string
    requires st.end < |s| && (st.Broke? ==> st.i <= st.end)
  {
    s[..if st.Broke? && st.i != 0 then st.i + 1 else 0] + l + s[st.end + 1..]
  }

  /**
   * The line replacer with the replaced range starting right after the line
   * feed that ends the previous line. Same as the console's on line-feed-only
   * text (`ReplaceAgreesOnLfOnly`).
   */
  function ReplaceLineFromEnd(s: string, li: nat, l: string): (r: string)
    requires NoWrap(s)
    ensures |s| == 0 ==> r == s
  {
    if |s| == 0 then s
    else
      var st := ScanReplace(s, li, |s| - 1, 0, |s| - 1);
      if st.current == li then Replaced(s, st, l) else s
  }

  /**
   * The text with the line on which the scan stopped replaced by `l`: the
   * range starts after the line feed where it broke, or at index 0.
   */
  function Replaced(s: string, st: Stop, l: string): string
    requires st.end < |s| && (st.Broke? ==> st.newline < |s|)
  {
    s[..if st.Broke? then st.newline + 1 else 0] + l + s[st.end + 1..]
  }

  // ---------------------------------------------------------------------------
  // The fetched line against the reference split

  lemma LfOnlyNoWrap(s: string)
    requires LfOnly(s)
    ensures NoWrap(s)
  {
    if |s| >= 2 {
      assert s[0] in s;
    }
  }

  /**
   * `r` is what fetching index `k` from the end of the lines `L` should give:
   * the line itself when it exists, otherwise the first line with the flag set.
   */
  predicate Fetches(r: Fetched, L: seq<string>, k: nat)
    requires |L| >= 1
  {
    && (k < |L| ==> r.line == L[|L| - 1 - k] && r.outOfBounds != Some(true))
    && (k >= |L| ==> r.line == L[0] && r.outOfBounds == Some(true))
  }

  /** A fetch one line further back in `L` is the same fetch in `L` plus a later line. */
  lemma FetchesShift(r: Fetched, L: seq<string>, line: string, k: nat)
    requires |L| >= 1 && Fetches(r, L, k)
    ensures Fetches(r, L + [line], k + 1)
  {
    var M := L + [line];
    if k < |L| {
      assert M[|M| - 1 - (k + 1)] == L[|L| - 1 - k];
    } else {
      assert M[0] == L[0];
    }
  }

  /** The not-yet-scanned text together with the collected characters. */
  function Pending(s: string, i: nat, line: string): string
    requires i < |s|
  {
    (if s[0] == '\n' then s[1..i + 1] else s[..i + 1]) + line
  }

  /** Moving the scan index back one character moves it from the text into the collected part. */
  lemma PendingStep(s: string, i: nat, line: string)
    requires 0 < i < |s|
    ensures Pending(s, i, line) == Pending(s, i - 1, [s[i]] + line)
    ensures Pending(s, i, line) == Pending(s, i - 1, "") + [s[i]] + line
  {
    if s[0] == '\n' {
      assert s[1..i + 1] == s[1..i] + [s[i]];
    } else {
      assert s[..i + 1] == s[..i] + [s[i]];
    }
  }

  /** At a line feed, the collected line is the last line of the pending text. */
  lemma PendingAtLineFeed(s: string, i: nat, line: string)
    requires 0 < i < |s| && s[i] == '\n' && '\n' !in line
    ensures Split(Pending(s, i, line)) == Split(Pending(s, i - 1, "")) + [line]
  {
    PendingStep(s, i, line);
    SplitAppend(Pending(s, i - 1, ""), line);
    SplitSingle(line);
  }

  lemma {:induction false} ScanLineSplit(s: string, l: nat, i: nat, c: nat, line: string)
    requires LfOnly(s) && NoWrap(s) && i < |s| && c <= l && '\n' !in line
    ensures Fetches(ScanLine(s, l, i, c, line), Split(Pending(s, i, line)), l - c)
    decreases i
  {
    if i == 0 {
      FetchAtStart(s, l, c, line);
    } else if s[i] == '\n' && c != l {
      ScanLineSplit(s, l, i - 1, c + 1, "");
      FetchAtLineFeed(s, l, i, c, line);
    } else if s[i] == '\n' {
      FetchAtBreak(s, l, i, c, line);
    } else {
      ScanLineSplit(s, l, i - 1, c, [s[i]] + line);
      FetchAtOther(s, l, i, c, line);
    }
  }

  lemma FetchAtStart(s: string, l: nat, c: nat, line: string)
    requires NoWrap(s) && |s| > 0 && c <= l && '\n' !in line
    ensures Fetches(ScanLine(s, l, 0, c, line), Split(Pending(s, 0, line)), l - c)
  {
    var T := Pending(s, 0, line);
    assert T == (if s[0] != '\n' then [s[0]] + line else line);
    SplitSingle(T);
  }

  lemma FetchAtBreak(s: string, l: nat, i: nat, c: nat, line: string)
    requires LfOnly(s) && NoWrap(s) && 0 < i < |s| && s[i] == '\n' && c == l && '\n' !in line
    ensures Fetches(ScanLine(s, l, i, c, line), Split(Pending(s, i, line)), l - c)
  {
    PendingAtLineFeed(s, i, line);
  }

  lemma FetchAtLineFeed(s: string, l: nat, i: nat, c: nat, line: string)
    requires LfOnly(s) && NoWrap(s) && 0 < i < |s| && s[i] == '\n' && c < l && '\n' !in line
    requires Fetches(ScanLine(s, l, i - 1, c + 1, ""), Split(Pending(s, i - 1, "")), l - (c + 1))
    ensures Fetches(ScanLine(s, l, i, c, line), Split(Pending(s, i, line)), l - c)
  {
    assert s[i - 1] in s;
    PendingAtLineFeed(s, i, line);
    assert ScanLine(s, l, i, c, line) == ScanLine(s, l, i - 1, c + 1, "");
    FetchesShift(ScanLine(s, l, i, c, line), Split(Pending(s, i - 1, "")), line, l - (c + 1));
  }

  lemma FetchAtOther(s: string, l: nat, i: nat, c: nat, line: string)
    requires NoWrap(s) && 0 < i < |s| && s[i] != '\n' && c <= l && '\n' !in line
    requires Fetches(ScanLine(s, l, i - 1, c, [s[i]] + line), Split(Pending(s, i - 1, [s[i]] + line)), l - c)
    ensures Fetches(ScanLine(s, l, i, c, line), Split(Pending(s, i, line)), l - c)
  {
    PendingStep(s, i, line);
  }

  /**
   * On line-feed-only text, with L the lines of the text (a leading line feed
   * dropped): an index below |L| fetches line L[|L|-1-l] and never flags out of
   * bounds; a larger index flags out of bounds and fetches the first line.
   */
  lemma GetLineFromEndLines(s: string, l: nat)
    requires LfOnly(s) && |s| > 0
    ensures NoWrap(s)
    ensures var L := Split(Body(s)); var r := GetLineFromEnd(s, l);
      && (l < |L| ==> r.line == L[|L| - 1 - l] && r.outOfBounds != Some(true))
      && (l >= |L| ==> r.line == L[0] && r.outOfBounds == Some(true))
  {
    GetLineFetches(s, l);
  }

  lemma GetLineFetches(s: string, l: nat)
    requires LfOnly(s) && |s| > 0
    ensures NoWrap(s) && Fetches(GetLineFromEnd(s, l), Split(Body(s)), l)
  {
    LfOnlyNoWrap(s);
    ScanLineSplit(s, l, |s| - 1, 0, "");
    PendingWhole(s);
  }

  lemma PendingWhole(s: string)
    requires |s| > 0
    ensures Pending(s, |s| - 1, "") == Body(s)
  {
  }

  // ---------------------------------------------------------------------------
  // The replaced span against the reference split

  /** No line feed at the indices `lo` up to (excluding) `hi`. */
  predicate NoLineFeedIn(s: string, lo: nat, hi: nat)
    requires lo <= hi <= |s|
  {
    forall k | lo <= k < hi :: s[k] != '\n'
  }

  /** The number of line feeds at index `k` or later. */
  function LineFeedsFrom(s: string, k: nat): (n: nat)
    requires k <= |s|
    ensures n <= |s| - k
    decreases |s| - k
  {
    if k == |s| then 0 else (if s[k] == '\n' then 1 else 0) + LineFeedsFrom(s, k + 1)
  }

  lemma {:induction false} LineFeedsFromNewlines(s: string, k: nat)
    requires k <= |s|
    ensures LineFeedsFrom(s, k) == Newlines(s[k..])
    decreases |s| - k
  {
    if k < |s| {
      LineFeedsFromNewlines(s, k + 1);
      assert s[k..] == [s[k]] + s[k + 1..];
      NewlinesConcat([s[k]], s[k + 1..]);
    }
  }

  lemma NoLineFeedSlice(s: string, lo: nat, hi: nat)
    requires lo <= hi <= |s|
    ensures NoLineFeedIn(s, lo, hi) <==> '\n' !in s[lo..hi]
  {
    assert forall k | lo <= k < hi :: s[lo..hi][k - lo] == s[k];
  }

  /** A range without line feeds adds none to the count. */
  lemma {:induction false} LineFeedsSkip(s: string, lo: nat, hi: nat)
    requires lo <= hi <= |s| && NoLineFeedIn(s, lo, hi)
    ensures LineFeedsFrom(s, lo) == LineFeedsFrom(s, hi)
    decreases hi - lo
  {
    if lo < hi {
      LineFeedsSkip(s, lo + 1, hi);
    }
  }

  lemma {:induction false} LineFeedsMonotone(s: string, lo: nat, hi: nat)
    requires lo <= hi <= |s|
    ensures LineFeedsFrom(s, lo) >= LineFeedsFrom(s, hi)
    decreases hi - lo
  {
    if lo < hi {
      LineFeedsMonotone(s, lo + 1, hi);
    }
  }

  /**
   * The replacer's loop state on line-feed-only text: nothing between `i` and
   * `end` is a line feed, and the text after `end` is empty or begins with the
   * line feed that ended the line, holding `c` line feeds in all.
   */
  predicate ReplaceState(s: string, i: nat, c: nat, end: nat) {
    && i <= end < |s|
    && NoLineFeedIn(s, i + 1, end + 1)
    && LineFeedsFrom(s, end + 1) == c
    && (end + 1 == |s| || s[end + 1] == '\n')
  }

  /** What the state guarantees once the loop has stopped. */
  predicate Stopped(s: string, li: nat, st: Stop) {
    && st.end < |s|
    && st.current <= li
    && (st.Broke? ==> st.current == li)
    && LineFeedsFrom(s, st.end + 1) == st.current
    && (st.end + 1 == |s| || s[st.end + 1] == '\n')
    && (st.Broke? ==> st.i == st.newline && 1 <= st.newline <= st.end && s[st.newline] == '\n'
                      && NoLineFeedIn(s, st.newline + 1, st.end + 1))
    && (st.Finished? ==> LineFeedsFrom(s, 1) == st.current && NoLineFeedIn(s, 1, st.end + 1))
  }

  lemma {:induction false} ScanReplaceSpans(s: string, li: nat, i: nat, c: nat, end: nat)
    requires LfOnly(s) && NoWrap(s) && ReplaceState(s, i, c, end) && c <= li
    ensures Stopped(s, li, ScanReplace(s, li, i, c, end))
    decreases i
  {
    if i == 0 {
      ReplaceStateFinished(s, li, c, end);
    } else if s[i] == '\n' && c != li {
      ReplaceStepLineFeed(s, li, i, c, end);
      ScanReplaceSpans(s, li, i - 1, c + 1, i - 1);
    } else if s[i] == '\n' {
      ReplaceStateBroke(s, li, i, c, end);
    } else {
      ReplaceStepOther(s, li, i, c, end);
      ScanReplaceSpans(s, li, i - 1, c, end);
    }
  }

  /** On line-feed-only text, passing a line feed that does not end line `li` opens the previous line. */
  lemma ReplaceStepLineFeed(s: string, li: nat, i: nat, c: nat, end: nat)
    requires LfOnly(s) && NoWrap(s) && ReplaceState(s, i, c, end) && 0 < i && s[i] == '\n' && c != li
    ensures ScanReplace(s, li, i, c, end) == ScanReplace(s, li, i - 1, c + 1, i - 1)
    ensures ReplaceState(s, i - 1, c + 1, i - 1)
  {
    assert s[i - 1] in s;
    LineFeedsSkip(s, i + 1, end + 1);
  }

  lemma ReplaceStepOther(s: string, li: nat, i: nat, c: nat, end: nat)
    requires NoWrap(s) && ReplaceState(s, i, c, end) && 0 < i && s[i] != '\n'
    ensures ScanReplace(s, li, i, c, end) == ScanReplace(s, li, i - 1, c, end)
    ensures ReplaceState(s, i - 1, c, end)
  {
  }

  lemma ReplaceStateBroke(s: string, li: nat, i: nat, c: nat, end: nat)
    requires LfOnly(s) && NoWrap(s) && ReplaceState(s, i, c, end) && 1 <= i && s[i] == '\n' && c == li
    ensures Stopped(s, li, ScanReplace(s, li, i, c, end))
  {
    assert s[i - 1] in s;
    assert ScanReplace(s, li, i, c, end) == Broke(i, i, c, end);
  }

  lemma ReplaceStateFinished(s: string, li: nat, c: nat, end: nat)
    requires NoWrap(s) && ReplaceState(s, 0, c, end) && c <= li
    ensures Stopped(s, li, ScanReplace(s, li, 0, c, end))
  {
    LineFeedsSkip(s, 1, end + 1);
  }

  /** The whole-string scan: it stops on line `li` exactly when that line exists. */
  lemma ScanReplaceFromEnd(s: string, li: nat)
    requires LfOnly(s) && |s| > 0
    ensures NoWrap(s)
    ensures var st := ScanReplace(s, li, |s| - 1, 0, |s| - 1);
      && Stopped(s, li, st)
      && (st.current == li <==> li < |Split(Body(s))|)
  {
    ScanStops(s, li);
    var st := ScanReplace(s, li, |s| - 1, 0, |s| - 1);
    StoppedLineFeeds(s, li, st);
    BodyLineCount(s);
  }

  lemma ScanStops(s: string, li: nat)
    requires LfOnly(s) && |s| > 0
    ensures NoWrap(s) && Stopped(s, li, ScanReplace(s, li, |s| - 1, 0, |s| - 1))
  {
    LfOnlyNoWrap(s);
    ScanReplaceSpans(s, li, |s| - 1, 0, |s| - 1);
  }

  /** A stopped scan is on line `li` exactly when more than `li` line feeds follow index 0. */
  lemma StoppedLineFeeds(s: string, li: nat, st: Stop)
    requires |s| > 0 && Stopped(s, li, st)
    ensures st.current == li <==> li < LineFeedsFrom(s, 1) + 1
  {
    if st.Broke? {
      LineFeedsMonotone(s, 1, st.newline);
      LineFeedsSkip(s, st.newline + 1, st.end + 1);
    }
  }

  /** The lines of the body are one more than the line feeds after index 0. */
  lemma BodyLineCount(s: string)
    requires |s| > 0
    ensures |Split(Body(s))| == LineFeedsFrom(s, 1) + 1
  {
    SplitLength(Body(s));
    LineFeedsFromNewlines(s, 1);
    assert s == [s[0]] + s[1..];
    NewlinesConcat([s[0]], s[1..]);
  }

  /** On line-feed-only text the console's replacer and the corrected one coincide. */
  lemma ReplaceAgreesOnLfOnly(s: string, li: nat, l: string)
    requires LfOnly(s)
    ensures NoWrap(s)
    ensures ReplaceLineFromEndAsWritten(s, li, l) == ReplaceLineFromEnd(s, li, l)
  {
    LfOnlyNoWrap(s);
    if |s| > 0 {
      ScanStops(s, li);
      StoppedStartsAgree(s, li, ScanReplace(s, li, |s| - 1, 0, |s| - 1), l);
    }
  }

  lemma StoppedStartsAgree(s: string, li: nat, st: Stop, l: string)
    requires Stopped(s, li, st)
    ensures ReplacedAsWritten(s, st, l) == Replaced(s, st, l)
  {
  }

  /** An empty text, or an index past the last line, leaves the text unchanged. */
  lemma ReplaceOutOfRange(s: string, li: nat, l: string)
    requires LfOnly(s) && li >= |Split(Body(s))|
    ensures NoWrap(s)
    ensures ReplaceLineFromEnd(s, li, l) == s
    ensures ReplaceLineFromEndAsWritten(s, li, l) == s
  {
    LfOnlyNoWrap(s);
    if |s| > 0 {
      ScanReplaceFromEnd(s, li);
    }
  }

  /**
   * On line-feed-only text not starting with a line feed, replacing line `li`
   * (counted from the end) by a line-feed-free `l` changes exactly that line:
   * the lines of the result are those of `s` with that one entry replaced.
   */
  lemma ReplaceLineFromEndLines(s: string, li: nat, l: string)
    requires LfOnly(s) && |s| > 0 && s[0] != '\n' && '\n' !in l
    requires li < |Split(s)|
    ensures NoWrap(s)
    ensures var L := Split(s);
      Split(ReplaceLineFromEnd(s, li, l)) == L[|L| - 1 - li := l]
  {
    var st := ReplaceStops(s, li, l);
    StoppedReplaceLines(s, li, st, l);
  }

  /** On line-feed-only text whose line `li` exists, the replacer rewrites the span where its scan stopped. */
  lemma ReplaceStops(s: string, li: nat, l: string) returns (st: Stop)
    requires LfOnly(s) && |s| > 0 && s[0] != '\n'
    requires li < |Split(s)|
    ensures NoWrap(s)
    ensures Stopped(s, li, st) && st.current == li
    ensures ReplaceLineFromEnd(s, li, l) == Replaced(s, st, l)
  {
    assert Body(s) == s;
    ScanReplaceFromEnd(s, li);
    st := ScanReplace(s, li, |s| - 1, 0, |s| - 1);
  }

  lemma StoppedReplaceLines(s: string, li: nat, st: Stop, l: string)
    requires |s| > 0 && s[0] != '\n' && '\n' !in l
    requires Stopped(s, li, st) && st.current == li
    ensures var L := Split(s);
      |L| - 1 - li >= 0 && Split(Replaced(s, st, l)) == L[|L| - 1 - li := l]
  {
    if st.Broke? {
      var a, x, b := BrokePieces(s, st, l);
      SplitReplaceLater(a, x, l, b, li);
    } else {
      var x, b := FinishedPieces(s, st, l);
      SplitReplaceFirst(x, l, b, li);
    }
  }

  /** The text cut at the line feed where the scan broke and again after the end of the line. */
  lemma BrokePieces(s: string, st: Stop, l: string) returns (a: string, x: string, b: string)
    requires st.Broke? && st.newline <= st.end < |s| && s[st.newline] == '\n'
    requires NoLineFeedIn(s, st.newline + 1, st.end + 1)
    requires st.end + 1 == |s| || s[st.end + 1] == '\n'
    ensures s == a + "\n" + (x + b) && Replaced(s, st, l) == a + "\n" + (l + b)
    ensures '\n' !in x && (|b| == 0 || b[0] == '\n') && LineFeedsFrom(s, st.end + 1) == Newlines(b)
  {
    a, x, b := CutAround(s, st.newline, st.end, l);
  }

  /**
   * The text around the line feed at `k`, cut again after index `e`, and the
   * same text with the range between them replaced by `l`.
   */
  lemma CutAround(s: string, k: nat, e: nat, l: string) returns (a: string, x: string, b: string)
    requires k <= e < |s| && s[k] == '\n' && NoLineFeedIn(s, k + 1, e + 1)
    requires e + 1 == |s| || s[e + 1] == '\n'
    ensures s == a + "\n" + (x + b) && s[..k + 1] + l + s[e + 1..] == a + "\n" + (l + b)
    ensures '\n' !in x && (|b| == 0 || b[0] == '\n') && LineFeedsFrom(s, e + 1) == Newlines(b)
  {
    NoLineFeedSlice(s, k + 1, e + 1);
    LineFeedsFromNewlines(s, e + 1);
    a, x, b := s[..k], s[k + 1..e + 1], s[e + 1..];
    CutEquations(s, k, e, l);
  }

  lemma CutEquations(s: string, k: nat, e: nat, l: string)
    requires k <= e < |s| && s[k] == '\n'
    ensures s == s[..k] + "\n" + (s[k + 1..e + 1] + s[e + 1..])
    ensures s[..k + 1] + l + s[e + 1..] == s[..k] + "\n" + (l + s[e + 1..])
  {
    var a, x, b := s[..k], s[k + 1..e + 1], s[e + 1..];
    assert s[..k + 1] == a + "\n";
    AppendAssoc(a + "\n", l, b);
    assert s == s[..k + 1] + x + b;
    AppendAssoc(a + "\n", x, b);
  }

  lemma AppendAssoc<T>(p: seq<T>, q: seq<T>, r: seq<T>)
    ensures p + q + r == p + (q + r)
  {
  }

  /** The text cut after the end of the first line, where the scan finished. */
  lemma FinishedPieces(s: string, st: Stop, l: string) returns (x: string, b: string)
    requires st.Finished? && st.end < |s| && s[0] != '\n' && NoLineFeedIn(s, 1, st.end + 1)
    requires st.end + 1 == |s| || s[st.end + 1] == '\n'
    ensures s == x + b && Replaced(s, st, l) == l + b
    ensures '\n' !in x && (|b| == 0 || b[0] == '\n') && LineFeedsFrom(s, st.end + 1) == Newlines(b)
  {
    x, b := s[..st.end + 1], s[st.end + 1..];
    assert NoLineFeedIn(s, 0, st.end + 1);
    NoLineFeedSlice(s, 0, st.end + 1);
    LineFeedsFromNewlines(s, st.end + 1);
    CutFirstEquations(s, st.end, l);
  }

  lemma CutFirstEquations(s: string, e: nat, l: string)
    requires e < |s|
    ensures s[0..e + 1] == s[..e + 1]
    ensures s == s[..e + 1] + s[e + 1..]
    ensures s[..0] + l + s[e + 1..] == l + s[e + 1..]
  {
  }

  /** Replacing the first line `x` of `x + b` by `l`. */
  lemma SplitReplaceFirst(x: string, l: string, b: string, n: nat)
    requires '\n' !in x && '\n' !in l && (|b| == 0 || b[0] == '\n') && n == Newlines(b)
    ensures var L := Split(x + b);
      |L| - 1 - n == 0 && Split(l + b) == L[|L| - 1 - n := l]
  {
    SplitLeadingLine(x, b);
    SplitLeadingLine(l, b);
    UpdateFirst(x, l, LaterLines(b));
  }

  /** Updating the first entry of a sequence. */
  lemma UpdateFirst<T>(x: T, l: T, R: seq<T>)
    ensures ([x] + R)[0 := l] == [l] + R
    ensures |[x] + R| == 1 + |R|
  {
  }

  /** The line `x` between `a + "\n"` and `b` is the entry right after the lines of `a`. */
  lemma SplitMiddle(a: string, x: string, b: string)
    requires '\n' !in x && (|b| == 0 || b[0] == '\n')
    ensures Split(a + "\n" + (x + b)) == Split(a) + ([x] + LaterLines(b))
    ensures |LaterLines(b)| == Newlines(b)
  {
    SplitAppend(a, x + b);
    SplitLeadingLine(x, b);
  }

  /** Updating the entry between two fixed blocks of a sequence. */
  lemma UpdateMiddle<T>(A: seq<T>, x: T, l: T, R: seq<T>)
    ensures (A + ([x] + R))[|A| := l] == A + ([l] + R)
    ensures |A + ([x] + R)| == |A| + 1 + |R|
  {
  }

  /** Replacing the line `x` that follows `a + "\n"` in `a + "\n" + x + b` by `l`. */
  lemma SplitReplaceLater(a: string, x: string, l: string, b: string, n: nat)
    requires '\n' !in x && '\n' !in l && (|b| == 0 || b[0] == '\n') && n == Newlines(b)
    ensures var L := Split(a + "\n" + (x + b));
      |L| - 1 - n >= 0 && Split(a + "\n" + (l + b)) == L[|L| - 1 - n := l]
  {
    SplitMiddle(a, x, b);
    SplitMiddle(a, l, b);
    UpdateMiddle(Split(a), x, l, LaterLines(b));
    assert |Split(a + "\n" + (x + b))| - 1 - n == |Split(a)|;
  }

  /** Consequence for the text itself: it is the join of the edited lines. */
  lemma ReplaceLineFromEndJoin(s: string, li: nat, l: string)
    requires LfOnly(s) && |s| > 0 && s[0] != '\n' && '\n' !in l
    requires li < |Split(s)|
    ensures NoWrap(s)
    ensures var L := Split(s);
      ReplaceLineFromEnd(s, li, l) == Join(L[|L| - 1 - li := l])
  {
    ReplaceLineFromEndLines(s, li, l);
    JoinSplit(ReplaceLineFromEnd(s, li, l));
  }

  // ---------------------------------------------------------------------------
  // Fetch then replace is the identity

  /**
   * The replacer's stop `st` and the fetcher's result `g` describe the same
   * line: after a break, the span between the line feed and `end`; after
   * running down to index 0, everything up to `end` except a leading line feed.
   */
  predicate Agree(s: string, st: Stop, g: Fetched)
    requires st.end < |s|
  {
    && (st.Broke? ==> st.newline <= st.end && g.line == s[st.newline + 1..st.end + 1])
    && (st.Finished? ==> g.line == if s[0] != '\n' then s[..st.end + 1] else s[1..st.end + 1])
  }

  lemma {:induction false} ScansAgree(s: string, li: nat, i: nat, c: nat, end: nat)
    requires NoWrap(s) && i <= end < |s|
    requires '\n' !in s[i + 1..end + 1]
    ensures Agree(s, ScanReplace(s, li, i, c, end), ScanLine(s, li, i, c, s[i + 1..end + 1]))
    decreases i
  {
    if i == 0 {
      AgreeAtStart(s, li, c, end);
    } else if s[i] == '\n' && c != li {
      var j := if s[i - 1] == '\r' then i - 1 else i;
      assert s[j..j] == "";
      ScansAgree(s, li, j - 1, c + 1, j - 1);
      AgreeAtLineFeed(s, li, i, c, end);
    } else if s[i] == '\n' {
      AgreeAtBreak(s, li, i, c, end);
    } else {
      NoLineFeedExtends(s, i, end);
      ScansAgree(s, li, i - 1, c, end);
      AgreeAtOther(s, li, i, c, end);
    }
  }

  lemma AgreeAtStart(s: string, li: nat, c: nat, end: nat)
    requires NoWrap(s) && end < |s| && '\n' !in s[1..end + 1]
    ensures Agree(s, ScanReplace(s, li, 0, c, end), ScanLine(s, li, 0, c, s[1..end + 1]))
  {
    assert [s[0]] + s[1..end + 1] == s[..end + 1];
  }

  lemma AgreeAtBreak(s: string, li: nat, i: nat, c: nat, end: nat)
    requires NoWrap(s) && 0 < i <= end < |s| && '\n' !in s[i + 1..end + 1]
    requires s[i] == '\n' && c == li
    ensures Agree(s, ScanReplace(s, li, i, c, end), ScanLine(s, li, i, c, s[i + 1..end + 1]))
  {
  }

  /** Both scans skip a line feed that does not end the wanted line in the same way. */
  lemma AgreeAtLineFeed(s: string, li: nat, i: nat, c: nat, end: nat)
    requires NoWrap(s) && 0 < i <= end < |s| && '\n' !in s[i + 1..end + 1]
    requires s[i] == '\n' && c != li
    requires var j := if s[i - 1] == '\r' then i - 1 else i;
      && 1 <= j && '\n' !in s[j..j]
      && Agree(s, ScanReplace(s, li, j - 1, c + 1, j - 1), ScanLine(s, li, j - 1, c + 1, s[j..j]))
    ensures Agree(s, ScanReplace(s, li, i, c, end), ScanLine(s, li, i, c, s[i + 1..end + 1]))
  {
    var j := if s[i - 1] == '\r' then i - 1 else i;
    assert s[j..j] == "";
    assert ScanReplace(s, li, i, c, end) == ScanReplace(s, li, j - 1, c + 1, j - 1);
    assert ScanLine(s, li, i, c, s[i + 1..end + 1]) == ScanLine(s, li, j - 1, c + 1, s[j..j]);
  }

  lemma NoLineFeedExtends(s: string, i: nat, end: nat)
    requires i <= end < |s| && s[i] != '\n' && '\n' !in s[i + 1..end + 1]
    ensures '\n' !in s[i..end + 1]
  {
    assert s[i..end + 1] == [s[i]] + s[i + 1..end + 1];
  }

  /** Both scans step over any other character in the same way. */
  lemma AgreeAtOther(s: string, li: nat, i: nat, c: nat, end: nat)
    requires NoWrap(s) && 0 < i <= end < |s| && '\n' !in s[i + 1..end + 1] && '\n' !in s[i..end + 1]
    requires s[i] != '\n'
    requires Agree(s, ScanReplace(s, li, i - 1, c, end), ScanLine(s, li, i - 1, c, s[i..end + 1]))
    ensures Agree(s, ScanReplace(s, li, i, c, end), ScanLine(s, li, i, c, s[i + 1..end + 1]))
  {
    assert [s[i]] + s[i + 1..end + 1] == s[i..end + 1];
    assert ScanLine(s, li, i, c, s[i + 1..end + 1]) == ScanLine(s, li, i - 1, c, s[i..end + 1]);
  }

  /** After agreeing scans, rewriting the fetched line over the stopped span gives the text back. */
  lemma AgreeReplaced(s: string, st: Stop, g: Fetched)
    requires st.end < |s| && Agree(s, st, g) && s[0] != '\n'
    ensures Replaced(s, st, g.line) == s
  {
    if st.Broke? {
      assert s == s[..st.newline + 1] + s[st.newline + 1..st.end + 1] + s[st.end + 1..];
    } else {
      assert s == s[..0] + s[..st.end + 1] + s[st.end + 1..];
    }
  }

  /**
   * Writing back the fetched line leaves the text unchanged, for every text the
   * functions accept that does not begin with a line feed.
   */
  lemma ReplaceGetRoundTrip(s: string, li: nat)
    requires NoWrap(s) && (|s| == 0 || s[0] != '\n')
    ensures ReplaceLineFromEnd(s, li, GetLineFromEnd(s, li).line) == s
  {
    if |s| > 0 {
      var n := |s|;
      var st := ScanReplace(s, li, n - 1, 0, n - 1);
      var g := GetLineFromEnd(s, li);
      assert s[n..n] == "";
      assert g == ScanLine(s, li, n - 1, 0, s[n..n]);
      ScansAgree(s, li, n - 1, 0, n - 1);
      AgreeReplaced(s, st, g);
      assert ReplaceLineFromEnd(s, li, g.line) == if st.current == li then Replaced(s, st, g.line) else s;
    }
  }

  /** The console's replacer has the same round trip on line-feed-only text. */
  lemma ReplaceGetRoundTripLfOnly(s: string, li: nat)
    requires LfOnly(s) && (|s| == 0 || s[0] != '\n')
    ensures NoWrap(s)
    ensures ReplaceLineFromEndAsWritten(s, li, GetLineFromEnd(s, li).line) == s
  {
    LfOnlyNoWrap(s);
    ReplaceGetRoundTrip(s, li);
    ReplaceAgreesOnLfOnly(s, li, GetLineFromEnd(s, li).line);
  }

  /**
   * With a CRLF line break the console's replacer also overwrites the line feed:
   * writing back the last line of "a\r\nb" loses the '\n'.
   */
  lemma CrlfReplaceLosesLineFeed()
    ensures GetLineFromEnd("a\r\nb", 0).line == "b"
    ensures ReplaceLineFromEndAsWritten("a\r\nb", 0, "b") == "a\rb"
    ensures ReplaceLineFromEnd("a\r\nb", 0, "b") == "a\r\nb"
  {
    var s := "a\r\nb";
    assert ScanLine(s, 0, 3, 0, "") == ScanLine(s, 0, 2, 0, "b");
    var st := ScanReplace(s, 0, 3, 0, 3);
    assert ScanReplace(s, 0, 3, 0, 3) == ScanReplace(s, 0, 2, 0, 3);
    assert st == Broke(1, 2, 0, 3);
    assert s[..2] + "b" + s[4..] == "a\rb";
    assert s[..3] + "b" + s[4..] == s;
  }
}
