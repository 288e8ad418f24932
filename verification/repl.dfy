/**
 * The key handling of the shader console. The console keeps the line being
 * typed and a history index that selects a line of the active view's shader
 * source, counted from its end. Enter hands a new source to the render loop:
 * the typed line appended (index 0) or written over the selected line. UP and
 * DOWN move the index and load the selected line into the input.
 */
module Repl {
  import opened Wrappers
  import opened Lines
  import opened LineEdit

  /** Virtual-key codes the console reacts to. */
  const VkEscape: nat := 0x1B
  const VkPrior: nat := 0x21
  const VkNext: nat := 0x22
  const VkUp: nat := 0x26
  const VkDown: nat := 0x28

  /** The ASCII backspace character. */
  const Backspace: char := 8 as char

  /**
   * A console key event: whether the key went down, its ASCII character (zero
   * for keys without one) and its virtual-key code.
   */
  datatype KeyEvent = KeyEvent(keyDown: bool, c: char, vk: nat)

  /** The typed input and the history index; index 0 stands for the end of the source. */
  datatype Console = Console(input: string, historyIndex: nat)

  const Initial: Console := Console("", 0)

  /**
   * What one event does: the console afterwards, the source handed to the
   * render loop for compilation, whether escape ended the console loop, and a
   * page key forwarded to the window.
   */
  datatype Reaction = Reaction(console: Console, submitted: Option<string>, quit: bool, forwarded: Option<nat>)

  // ---------------------------------------------------------------------------
  // Dropping leading spaces

  /** The first index holding something other than a space; `None` when there is none. */
  function FindFirstNotSpace(s: string): (r: Option<nat>)
    ensures r.Some? ==> r.value < |s|
  {
    if |s| == 0 then None
    else if s[0] != ' ' then Some(0)
    else match FindFirstNotSpace(s[1..])
      case None => None
      case Some(k) => Some(k + 1)
  }

  /** The search finds the first non-space, and reports none exactly for an all-space string. */
  lemma {:induction false} FindFirstNotSpaceFinds(s: string)
    ensures var r := FindFirstNotSpace(s);
      && (r.None? <==> forall k :: 0 <= k < |s| ==> s[k] == ' ')
      && (r.Some? ==> s[r.value] != ' ' && forall k :: 0 <= k < r.value ==> s[k] == ' ')
  {
    if |s| > 0 && s[0] == ' ' {
      FindFirstNotSpaceFinds(s[1..]);
      assert forall k :: 1 <= k < |s| ==> s[k] == s[1..][k - 1];
    }
  }

  /**
   * Erasing everything before the first non-space: when there is none, the
   * erase runs to the end of the string and nothing is left.
   */
  function TrimLeadingSpaces(s: string): string {
    match FindFirstNotSpace(s)
    case None => ""
    case Some(k) => s[k..]
  }

  /** The trimmed text is what is left of `s` after a run of spaces, and begins with a non-space. */
  lemma TrimDropsLeadingSpaces(s: string)
    ensures var r := TrimLeadingSpaces(s);
      && |r| <= |s| && r == s[|s| - |r|..]
      && (forall k :: 0 <= k < |s| - |r| ==> s[k] == ' ')
      && (|r| == 0 || r[0] != ' ')
  {
    FindFirstNotSpaceFinds(s);
  }

  /** Trimming twice is trimming once. */
  lemma TrimIdempotent(s: string)
    ensures TrimLeadingSpaces(TrimLeadingSpaces(s)) == TrimLeadingSpaces(s)
  {
    TrimDropsLeadingSpaces(s);
    var r := TrimLeadingSpaces(s);
    if |r| > 0 {
      assert FindFirstNotSpace(r) == Some(0);
    }
  }

  /** Trimming keeps a text free of line breaks. */
  lemma TrimKeepsLineFree(s: string)
    requires LfOnly(s) && '\n' !in s
    ensures LfOnly(TrimLeadingSpaces(s)) && '\n' !in TrimLeadingSpaces(s)
  {
    TrimDropsLeadingSpaces(s);
    var r := TrimLeadingSpaces(s);
    assert forall k :: 0 <= k < |r| ==> r[k] == s[|s| - |r| + k];
  }

  // ---------------------------------------------------------------------------
  // Key handling

  /**
   * The character part of a key-down event: Enter, backspace or a printable
   * character. Enter at a history index above 0 overwrites that line with the
   * console's replacer as written.
   */
  function OnChar(con: Console, source: string, c: char): (Console, Option<string>)
    requires NoWrap(source)
  {
    if c == '\r' || c == '\n' then
      if |con.input| == 0 then (con, None)
      else if con.historyIndex == 0 then (Initial, Some(source + "  " + con.input + "\n"))
      else (Initial, Some(ReplaceLineFromEndAsWritten(source, con.historyIndex, con.input)))
    else if c == Backspace then
      if |con.input| > 0 then (con.(input := con.input[..|con.input| - 1]), None) else (con, None)
    else if ' ' <= c <= '~' then (con.(input := con.input + [c]), None)
    else (con, None)
  }

  /**
   * UP: load line `historyIndex + 1` from the end, without its leading spaces,
   * and advance the index unless the fetch reported it out of bounds. The flag
   * starts false, so a fetch that leaves it unwritten also advances.
   */
  function Up(con: Console, source: string): Console
    requires NoWrap(source)
  {
    var g := GetLineFromEnd(source, con.historyIndex + 1);
    Console(TrimLeadingSpaces(g.line), if g.outOfBounds == Some(true) then con.historyIndex else con.historyIndex + 1)
  }

  /** DOWN: step the index back towards the end; at index 0 the input is cleared. */
  function Down(con: Console, source: string): Console
    requires NoWrap(source)
  {
    if con.historyIndex == 0 then con
    else if con.historyIndex - 1 == 0 then Initial
    else Console(TrimLeadingSpaces(GetLineFromEnd(source, con.historyIndex - 1).line), con.historyIndex - 1)
  }

  /**
   * One console event against the active view's source. Key-up events are
   * ignored; the character is handled first, then the virtual key.
   */
  function OnKey(con: Console, source: string, ev: KeyEvent): (r: Reaction)
    requires NoWrap(source)
    ensures r.quit <==> ev.keyDown && ev.vk == VkEscape
    ensures r.submitted.Some? <==> ev.keyDown && (ev.c == '\r' || ev.c == '\n') && |con.input| > 0
    ensures r.forwarded.Some? <==> ev.keyDown && (ev.vk == VkPrior || ev.vk == VkNext)
    ensures r.forwarded.Some? ==> r.forwarded.value == ev.vk
    ensures !ev.keyDown ==> r.console == con
  {
    if !ev.keyDown then Reaction(con, None, false, None)
    else
      var (typed, submitted) := OnChar(con, source, ev.c);
      if ev.vk == VkEscape then Reaction(typed, submitted, true, None)
      else if ev.vk == VkPrior || ev.vk == VkNext then Reaction(typed, submitted, false, Some(ev.vk))
      else if ev.vk == VkUp then Reaction(Up(typed, source), submitted, false, None)
      else if ev.vk == VkDown then Reaction(Down(typed, source), submitted, false, None)
      else Reaction(typed, submitted, false, None)
  }

  // ---------------------------------------------------------------------------
  // Typing

  /** A printable character followed by backspace restores the input. */
  lemma TypeThenBackspace(con: Console, source: string, c: char)
    requires NoWrap(source) && ' ' <= c <= '~'
    ensures var (typed, _) := OnChar(con, source, c);
      OnChar(typed, source, Backspace) == (con, None)
  {
    var (typed, _) := OnChar(con, source, c);
    assert typed.input[..|typed.input| - 1] == con.input;
  }

  // ---------------------------------------------------------------------------
  // Moving through the history

  /**
   * On a non-empty line-feed-only source with lines L (a leading line feed
   * dropped), UP from an index whose next line exists advances the index and
   * shows that line.
   */
  lemma UpAdvances(con: Console, source: string)
    requires LfOnly(source) && |source| > 0
    requires con.historyIndex + 1 < |Split(Body(source))|
    ensures NoWrap(source)
    ensures var L := Split(Body(source));
      Up(con, source) == Console(TrimLeadingSpaces(L[|L| - 2 - con.historyIndex]), con.historyIndex + 1)
  {
    FetchLine(source, con.historyIndex + 1, |Split(Body(source))| - 2 - con.historyIndex);
  }

  /** UP at the first line keeps the index and shows the first line. */
  lemma UpStays(con: Console, source: string)
    requires LfOnly(source) && |source| > 0
    requires con.historyIndex + 1 >= |Split(Body(source))|
    ensures NoWrap(source)
    ensures Up(con, source) == Console(TrimLeadingSpaces(Split(Body(source))[0]), con.historyIndex)
  {
    FetchPast(source, con.historyIndex + 1);
  }

  /** On an empty source the fetch never writes its flag, so UP advances the index without bound. */
  lemma UpOnEmptySource(con: Console)
    ensures Up(con, "") == Console("", con.historyIndex + 1)
  {
    assert GetLineFromEnd("", con.historyIndex + 1).line == "";
  }

  /**
   * DOWN leaves index 0 alone, clears the input when it returns to 0, and
   * otherwise shows the line it moves to, at position `k` of the lines.
   */
  lemma DownShows(con: Console, source: string, k: nat)
    requires LfOnly(source) && |source| > 0
    requires 1 < con.historyIndex <= |Split(Body(source))|
    requires k == |Split(Body(source))| - con.historyIndex
    ensures NoWrap(source)
    ensures Down(con, source) == Console(TrimLeadingSpaces(Split(Body(source))[k]), con.historyIndex - 1)
  {
    LfOnlyNoWrap(source);
    FetchLine(source, con.historyIndex - 1, k);
  }

  /** DOWN at index 0 does nothing; from index 1 it returns to the end with an empty input. */
  lemma DownToEnd(con: Console, source: string)
    requires NoWrap(source) && con.historyIndex <= 1
    ensures Down(con, source) == if con.historyIndex == 0 then con else Initial
  {
  }

  /** DOWN undoes UP: the index returns and the input shows the line at that index again. */
  lemma UpThenDown(con: Console, source: string)
    requires LfOnly(source) && |source| > 0
    requires con.historyIndex + 1 < |Split(Body(source))|
    ensures NoWrap(source)
    ensures var L := Split(Body(source));
      Down(Up(con, source), source) ==
        if con.historyIndex == 0 then Initial
        else Console(TrimLeadingSpaces(L[|L| - 1 - con.historyIndex]), con.historyIndex)
  {
    UpAdvances(con, source);
    if con.historyIndex == 0 {
      DownToEnd(Up(con, source), source);
    } else {
      UpThenDownInside(con, source, Up(con, source), |Split(Body(source))| - 1 - con.historyIndex);
    }
  }

  lemma UpThenDownInside(con: Console, source: string, up: Console, k: nat)
    requires LfOnly(source) && |source| > 0
    requires 0 < con.historyIndex && con.historyIndex + 1 < |Split(Body(source))|
    requires up.historyIndex == con.historyIndex + 1
    requires k == |Split(Body(source))| - 1 - con.historyIndex
    ensures NoWrap(source)
    ensures Down(up, source) == Console(TrimLeadingSpaces(Split(Body(source))[k]), con.historyIndex)
  {
    DownShows(up, source, k);
  }

  /** `GetLineFromEndLines` for a line that exists, with its position `k` in the lines named. */
  lemma FetchLine(source: string, l: nat, k: nat)
    requires LfOnly(source) && |source| > 0
    requires l < |Split(Body(source))| && k == |Split(Body(source))| - 1 - l
    ensures NoWrap(source)
    ensures GetLineFromEnd(source, l).line == Split(Body(source))[k]
    ensures GetLineFromEnd(source, l).outOfBounds != Some(true)
  {
    GetLineFromEndLines(source, l);
  }

  /** `GetLineFromEndLines` for an index past the first line. */
  lemma FetchPast(source: string, l: nat)
    requires LfOnly(source) && |source| > 0
    requires l >= |Split(Body(source))|
    ensures NoWrap(source)
    ensures GetLineFromEnd(source, l).line == Split(Body(source))[0]
    ensures GetLineFromEnd(source, l).outOfBounds == Some(true)
  {
    GetLineFromEndLines(source, l);
  }

  // ---------------------------------------------------------------------------
  // Enter

  /** Enter with nothing typed changes nothing and submits nothing. */
  lemma EnterEmptyInput(con: Console, source: string, c: char)
    requires NoWrap(source) && (c == '\r' || c == '\n') && |con.input| == 0
    ensures OnChar(con, source, c) == (con, None)
  {
  }

  /**
   * Enter at index 0 appends the input as a new indented line: the last line of
   * the source is extended by it and a new empty last line follows.
   */
  lemma EnterAppendsLine(con: Console, source: string, c: char)
    requires NoWrap(source) && (c == '\r' || c == '\n')
    requires con.historyIndex == 0 && |con.input| > 0 && '\n' !in con.input
    ensures OnChar(con, source, c).0 == Initial
    ensures OnChar(con, source, c).1 == Some(source + "  " + con.input + "\n")
    ensures var L := Split(source);
      Split(source + "  " + con.input + "\n") == L[..|L| - 1] + [L[|L| - 1] + "  " + con.input, ""]
  {
    SplitIndentedLine(source, con.input);
  }

  lemma SplitIndentedLine(a: string, input: string)
    requires '\n' !in input
    ensures var L := Split(a);
      Split(a + "  " + input + "\n") == L[..|L| - 1] + [L[|L| - 1] + "  " + input, ""]
  {
    var t := "  " + input;
    assert '\n' !in t by {
      assert forall k :: 2 <= k < |t| ==> t[k] == input[k - 2];
    }
    SplitAppendLine(a, t);
    assert a + t + "\n" == a + "  " + input + "\n";
    var L := Split(a);
    assert L[|L| - 1] + t == L[|L| - 1] + "  " + input;
  }

  /**
   * Enter at a history index naming a line of the source writes the input over
   * that line and nothing else, and returns the index to 0.
   */
  lemma EnterReplacesLine(con: Console, source: string, c: char)
    requires LfOnly(source) && |source| > 0 && source[0] != '\n' && (c == '\r' || c == '\n')
    requires 0 < con.historyIndex < |Split(source)| && |con.input| > 0 && '\n' !in con.input
    ensures NoWrap(source)
    ensures OnChar(con, source, c).0 == Initial
    ensures OnChar(con, source, c).1 == Some(ReplaceLineFromEndAsWritten(source, con.historyIndex, con.input))
    ensures var L := Split(source);
      Split(ReplaceLineFromEndAsWritten(source, con.historyIndex, con.input)) == L[|L| - 1 - con.historyIndex := con.input]
  {
    ReplaceAgreesOnLfOnly(source, con.historyIndex, con.input);
    ReplaceLineFromEndLines(source, con.historyIndex, con.input);
  }

  /**
   * On a source with a CRLF line break, Enter at index 1 overwrites the line
   * feed before the replaced line along with the line: "a\r\nb\n" becomes
   * "a\rz\n", where the corrected replacer gives "a\r\nz\n".
   */
  lemma EnterOnCrlfSource()
    ensures OnChar(Console("z", 1), "a\r\nb\n", '\n') == (Initial, Some("a\rz\n"))
    ensures ReplaceLineFromEnd("a\r\nb\n", 1, "z") == "a\r\nz\n"
  {
    var s := "a\r\nb\n";
    assert ScanReplace(s, 1, 4, 0, 4) == ScanReplace(s, 1, 3, 1, 3) == ScanReplace(s, 1, 2, 1, 3);
    assert ScanReplace(s, 1, 2, 1, 3) == Broke(1, 2, 1, 3);
    assert s[..2] + "z" + s[4..] == "a\rz\n";
    assert s[..3] + "z" + s[4..] == "a\r\nz\n";
  }

  /** Enter at an index past the last line submits the source unchanged: the input is dropped. */
  lemma EnterPastLastLine(con: Console, source: string, c: char)
    requires LfOnly(source) && (c == '\r' || c == '\n')
    requires con.historyIndex >= |Split(Body(source))| && |con.input| > 0
    ensures NoWrap(source)
    ensures OnChar(con, source, c) == (Initial, Some(source))
  {
    ReplaceOutOfRange(source, con.historyIndex, con.input);
  }

  // ---------------------------------------------------------------------------
  // The console invariant

  /**
   * The input holds no line break and the history index names a line of the
   * source (a leading line feed aside).
   */
  predicate Valid(con: Console, source: string) {
    LfOnly(con.input) && '\n' !in con.input && con.historyIndex < |Split(Body(source))|
  }

  /**
   * Every key event on a non-empty line-feed-only source keeps the console
   * valid, and every source it submits is line-feed-only again.
   */
  lemma OnKeyKeepsValid(con: Console, source: string, ev: KeyEvent)
    requires LfOnly(source) && |source| > 0 && Valid(con, source)
    ensures NoWrap(source)
    ensures Valid(OnKey(con, source, ev).console, source)
    ensures OnKey(con, source, ev).submitted.Some? ==> LfOnly(OnKey(con, source, ev).submitted.value)
  {
    LfOnlyNoWrap(source);
    var typed := OnChar(con, source, ev.c).0;
    OnCharKeepsValid(con, source, ev.c);
    if ev.keyDown && ev.vk == VkUp {
      UpKeepsValid(typed, source);
    } else if ev.keyDown && ev.vk == VkDown {
      DownKeepsValid(typed, source);
    }
  }

  lemma OnCharKeepsValid(con: Console, source: string, c: char)
    requires LfOnly(source) && |source| > 0 && Valid(con, source)
    ensures NoWrap(source)
    ensures Valid(OnChar(con, source, c).0, source)
    ensures OnChar(con, source, c).1.Some? ==> LfOnly(OnChar(con, source, c).1.value)
  {
    LfOnlyNoWrap(source);
    if c == '\r' || c == '\n' {
      if |con.input| > 0 {
        EnterKeepsLfOnly(con, source);
      }
    } else if c == Backspace {
      var i := con.input;
      if |i| > 0 {
        assert forall k :: 0 <= k < |i| - 1 ==> i[..|i| - 1][k] == i[k];
      }
    } else if ' ' <= c <= '~' {
      var i := con.input + [c];
      assert forall k :: 0 <= k < |i| ==> i[k] != '\r' && i[k] != '\n';
    }
  }

  lemma EnterKeepsLfOnly(con: Console, source: string)
    requires LfOnly(source) && |source| > 0 && Valid(con, source) && |con.input| > 0
    ensures NoWrap(source)
    ensures OnChar(con, source, '\n').1.Some? && LfOnly(OnChar(con, source, '\n').1.value)
  {
    LfOnlyNoWrap(source);
    if con.historyIndex == 0 {
      var s := source + "  " + con.input + "\n";
      assert forall k :: 0 <= k < |s| ==> s[k] != '\r';
    } else {
      ReplaceAgreesOnLfOnly(source, con.historyIndex, con.input);
      ReplaceKeepsLfOnly(source, con.historyIndex, con.input);
    }
  }

  lemma UpKeepsValid(con: Console, source: string)
    requires LfOnly(source) && |source| > 0 && Valid(con, source)
    ensures NoWrap(source)
    ensures Valid(Up(con, source), source)
  {
    FetchedLineFree(source, con.historyIndex + 1);
    var L := Split(Body(source));
    if con.historyIndex + 1 < |L| {
      FetchLine(source, con.historyIndex + 1, |L| - 2 - con.historyIndex);
    } else {
      FetchPast(source, con.historyIndex + 1);
    }
  }

  lemma DownKeepsValid(con: Console, source: string)
    requires LfOnly(source) && |source| > 0 && Valid(con, source)
    ensures NoWrap(source)
    ensures Valid(Down(con, source), source)
  {
    LfOnlyNoWrap(source);
    if con.historyIndex > 1 {
      FetchedLineFree(source, con.historyIndex - 1);
    }
  }

  /** A fetched and trimmed line of a line-feed-only source holds no line break. */
  lemma FetchedLineFree(source: string, l: nat)
    requires LfOnly(source) && |source| > 0
    ensures NoWrap(source)
    ensures LfOnly(TrimLeadingSpaces(GetLineFromEnd(source, l).line))
    ensures '\n' !in TrimLeadingSpaces(GetLineFromEnd(source, l).line)
  {
    var b := Body(source);
    var L := Split(b);
    assert LfOnly(b) by {
      assert forall k :: 0 <= k < |b| ==> b[k] in source;
    }
    SplitLinesLfOnly(b);
    if l < |L| {
      FetchLine(source, l, |L| - 1 - l);
      assert LfOnly(L[|L| - 1 - l]);
    } else {
      FetchPast(source, l);
      assert LfOnly(L[0]);
    }
    TrimKeepsLineFree(GetLineFromEnd(source, l).line);
  }

  /** Replacing a line of a line-feed-only text by a line-feed-only line gives a line-feed-only text. */
  lemma ReplaceKeepsLfOnly(s: string, li: nat, l: string)
    requires LfOnly(s) && LfOnly(l)
    ensures NoWrap(s)
    ensures LfOnly(ReplaceLineFromEnd(s, li, l))
  {
    LfOnlyNoWrap(s);
    if |s| > 0 {
      ScanStops(s, li);
      var st := ScanReplace(s, li, |s| - 1, 0, |s| - 1);
      if st.current == li {
        var k := if st.Broke? then st.newline + 1 else 0;
        var r := Replaced(s, st, l);
        assert r == s[..k] + l + s[st.end + 1..];
        assert forall j :: 0 <= j < k ==> s[..k][j] == s[j];
        var t := s[st.end + 1..];
        assert forall j :: 0 <= j < |t| ==> t[j] == s[st.end + 1 + j];
      }
    }
  }

  /** The console starts valid for any source. */
  lemma InitialValid(source: string)
    ensures Valid(Initial, source)
  {
  }

  // ---------------------------------------------------------------------------
  // Switching views

  /**
   * On a view switch the console discards the unfinished input but keeps the
   * history index, which then counts lines of another source.
   */
  function OnViewChangeAsWritten(con: Console): (r: Console)
    ensures r.input == "" && r.historyIndex == con.historyIndex
  {
    Console("", con.historyIndex)
  }

  /** The switch with the history index reset along with the input. */
  function OnViewChange(con: Console): (r: Console)
    ensures forall source :: Valid(r, source)
  {
    Initial
  }

  /**
   * As written, a switch from a view whose third line from the end was selected
   * to the view with source "x\n" makes the next typed line vanish: Enter
   * submits "x\n" unchanged. With the index reset the line is appended.
   */
  lemma ViewChangeDropsInput()
    ensures Valid(Console("", 2), "a\nb\nc\n")
    ensures !Valid(OnViewChangeAsWritten(Console("", 2)), "x\n")
    ensures var typed := OnChar(OnViewChangeAsWritten(Console("", 2)), "x\n", 'y').0;
      OnChar(typed, "x\n", '\n') == (Initial, Some("x\n"))
    ensures var typed := OnChar(OnViewChange(Console("", 2)), "x\n", 'y').0;
      OnChar(typed, "x\n", '\n') == (Initial, Some("x\n  y\n"))
  {
    BodyLineCount("a\nb\nc\n");
    BodyLineCount("x\n");
    assert LineFeedsFrom("a\nb\nc\n", 1) == 3;
    assert LineFeedsFrom("x\n", 1) == 1;
    var typed := OnChar(OnViewChangeAsWritten(Console("", 2)), "x\n", 'y').0;
    assert typed == Console("y", 2);
    EnterPastLastLine(typed, "x\n", '\n');
    assert "x\n" + "  " + "y" + "\n" == "x\n  y\n";
  }
}
