/**
 * The server's reading of tmux (tmux_status and tmux_windows in app.py):
 * the first session tmux lists, and the windows `tmux list-windows`
 * prints as `index|name|active|panes` lines.
 */
module Tmux {
  import opened Wrappers
  import opened Text
  import opened Decimal

  /**
   * `run_ssh_command`: the command's standard output stripped, or None when
   * there is no connection or the command raised.
   */
  function CommandOutput(stdout: Option<string>): Option<string> {
    match stdout
    case None => None
    case Some(s) => Some(PyStrip(s))
  }

  /** Whether a tmux server runs, and the session to attach to. */
  datatype Status = Status(active: bool, session: Option<string>)

  /** tmux_status: active when `list-sessions` printed anything; the session is its first line, stripped. */
  function TmuxStatus(connected: bool, stdout: Option<string>): (r: Status)
    ensures r.active <==> r.session.Some?
    ensures r.active <==> connected && CommandOutput(stdout).Some? && CommandOutput(stdout).value != ""
  {
    var out := CommandOutput(stdout);
    if !connected || out.None? || out.value == "" then Status(false, None)
    else Status(true, Some(PyStrip(SplitOn(out.value, '\n')[0])))
  }

  /** A session or window name as tmux prints it on a line of its own: no line break, no white space at its ends. */
  predicate IsLineName(n: string) {
    n != "" && '\n' !in n && !IsPySpace(n[0]) && !IsPySpace(n[|n| - 1])
  }

  lemma {:induction false} JoinEnds(parts: seq<string>, d: string)
    requires |parts| >= 1 && forall k :: 0 <= k < |parts| ==> parts[k] != ""
    ensures var j := JoinWith(parts, d);
      j != "" && j[0] == parts[0][0] && j[|j| - 1] == parts[|parts| - 1][|parts[|parts| - 1]| - 1]
  {
    if |parts| > 1 {
      JoinEnds(parts[1..], d);
    }
  }

  /**
   * With the sessions `names` listed one per line, tmux is active and the
   * session reported is the first one.
   */
  lemma {:induction false} StatusReportsFirstSession(names: seq<string>)
    requires |names| >= 1
    requires forall k :: 0 <= k < |names| ==> IsLineName(names[k])
    ensures TmuxStatus(true, Some(JoinWith(names, "\n") + "\n")) == Status(true, Some(names[0]))
  {
    var j := JoinWith(names, "\n");
    JoinEnds(names, "\n");
    PyStripLineEnd(j);
    SplitJoin(names, '\n');
    PyStripKeeps(names[0]);
  }

  // ------------------------------------------------------------ windows

  /** One window of the list; `index` and `paneCount` as `int()` read them. */
  datatype Window = Window(index: int, name: string, active: bool, paneCount: int)

  /**
   * The window of one line, when it has at least four `|`-separated
   * fields: Some(None) for a line skipped, None where `int()` raises on the
   * index or the pane count.
   */
  function WindowOf(line: string): Option<Option<Window>> {
    var parts := SplitOn(line, '|');
    if |parts| < 4 then Some(None)
    else
      var index := ParsePyInt(parts[0]);
      var panes := ParsePyInt(parts[3]);
      if index.None? || panes.None? then None
      else Some(Some(Window(index.value, parts[1], parts[2] == "1", panes.value)))
  }

  /** The windows of `lines` in order; None once a line's numbers fail to parse. */
  function WindowsOf(lines: seq<string>): Option<seq<Window>> {
    if lines == [] then Some([])
    else
      var init := WindowsOf(lines[..|lines| - 1]);
      var w := WindowOf(lines[|lines| - 1]);
      if init.None? || w.None? then None
      else if w.value.None? then init
      else Some(init.value + [w.value.value])
  }

  /**
   * tmux_windows: no windows without a connection or without output;
   * otherwise the windows of the output's lines, and None (the request
   * fails) when a window line holds a field `int()` rejects.
   */
  method TmuxWindows(connected: bool, stdout: Option<string>) returns (windows: Option<seq<Window>>)
    ensures !connected || CommandOutput(stdout).None? || CommandOutput(stdout).value == "" ==> windows == Some([])
    ensures connected && CommandOutput(stdout).Some? && CommandOutput(stdout).value != "" ==>
      windows == WindowsOf(SplitOn(CommandOutput(stdout).value, '\n'))
  {
    if !connected {
      return Some([]);
    }
    var out := CommandOutput(stdout);
    if out.None? || out.value == "" {
      return Some([]);
    }
    var lines := SplitOn(out.value, '\n');
    var acc: seq<Window> := [];
    var i := 0;
    while i < |lines|
      invariant 0 <= i <= |lines|
      invariant WindowsOf(lines[..i]) == Some(acc)
    {
      var parts := SplitOn(lines[i], '|');
      assert lines[..i + 1] == lines[..i] + [lines[i]];
      WindowsSnoc(lines[..i], lines[i]);
      if |parts| >= 4 {
        var index := ParsePyInt(parts[0]);
        var panes := ParsePyInt(parts[3]);
        if index.None? || panes.None? {
          WindowsNoneStays(lines, i + 1);
          return None;
        }
        acc := acc + [Window(index.value, parts[1], parts[2] == "1", panes.value)];
      }
      i := i + 1;
    }
    assert lines[..|lines|] == lines;
    return Some(acc);
  }

  lemma {:induction false} WindowsSnoc(lines: seq<string>, line: string)
    ensures WindowsOf(lines + [line]) ==
      if WindowsOf(lines).None? || WindowOf(line).None? then None
      else if WindowOf(line).value.None? then WindowsOf(lines)
      else Some(WindowsOf(lines).value + [WindowOf(line).value.value])
  {
    assert (lines + [line])[..|lines|] == lines;
  }

  lemma {:induction false} WindowsNoneStays(lines: seq<string>, j: int)
    requires 0 <= j <= |lines|
    requires WindowsOf(lines[..j]).None?
    ensures WindowsOf(lines).None?
    decreases |lines| - j
  {
    if j < |lines| {
      assert lines[..j + 1][..j] == lines[..j];
      WindowsNoneStays(lines, j + 1);
    } else {
      assert lines[..j] == lines;
    }
  }

  /** The line the `-F '#{window_index}|#{window_name}|#{window_active}|#{window_panes}'` format prints. */
  function FormatWindow(w: Window): string {
    IntToString(w.index) + "|" + w.name + "|" + (if w.active then "1" else "0") + "|" + IntToString(w.paneCount)
  }

  /** The lines tmux prints for `ws`, one per window, in order. */
  function FormatWindows(ws: seq<Window>): (r: seq<string>)
    ensures |r| == |ws|
  {
    if ws == [] then [] else FormatWindows(ws[..|ws| - 1]) + [FormatWindow(ws[|ws| - 1])]
  }

  lemma {:induction false} FormatWindowsAt(ws: seq<Window>, k: int)
    requires 0 <= k < |ws|
    ensures FormatWindows(ws)[k] == FormatWindow(ws[k])
    decreases |ws|
  {
    if k < |ws| - 1 {
      FormatWindowsAt(ws[..|ws| - 1], k);
    }
  }

  /** A name tmux can print in that format and the parser can read back. */
  predicate IsWindowName(n: string) {
    '|' !in n && '\n' !in n
  }

  lemma {:induction false} DigitsHaveNoBar(n: int)
    ensures '|' !in IntToString(n) && '\n' !in IntToString(n)
    ensures IntToString(n) != "" && !IsPySpace(IntToString(n)[0]) && !IsPySpace(IntToString(n)[|IntToString(n)| - 1])
  {
    var digits := NatToString(if n < 0 then -n else n);
    assert forall i :: 0 <= i < |digits| ==> IsDigit(digits[i]);
  }

  lemma {:induction false} JoinFour(a: string, b: string, c: string, d: string, sep: string)
    ensures JoinWith([a, b, c, d], sep) == a + sep + b + sep + c + sep + d
  {
    assert [a, b, c, d][1..] == [b, c, d];
    assert [b, c, d][1..] == [c, d];
    assert [c, d][1..] == [d];
    assert JoinWith([c, d], sep) == c + sep + d;
    assert JoinWith([b, c, d], sep) == b + sep + (c + sep + d);
  }

  /** The fields of a printed line, split at the bars, are the four fields tmux printed. */
  lemma {:induction false} FormatWindowFields(w: Window)
    requires IsWindowName(w.name)
    ensures SplitOn(FormatWindow(w), '|')
      == [IntToString(w.index), w.name, if w.active then "1" else "0", IntToString(w.paneCount)]
  {
    var flag := if w.active then "1" else "0";
    var index, panes := IntToString(w.index), IntToString(w.paneCount);
    DigitsHaveNoBar(w.index);
    DigitsHaveNoBar(w.paneCount);
    var parts := [index, w.name, flag, panes];
    JoinFour(index, w.name, flag, panes, "|");
    assert forall k :: 0 <= k < 4 ==> '|' !in parts[k];
    SplitJoin(parts, '|');
  }

  /** One printed line reads back as its window. */
  lemma {:induction false} WindowLineRoundTrip(w: Window)
    requires IsWindowName(w.name)
    ensures WindowOf(FormatWindow(w)) == Some(Some(w))
  {
    FormatWindowFields(w);
    IntRoundTrip(w.index);
    IntRoundTrip(w.paneCount);
  }

  lemma {:induction false} LastSplit(ws: seq<Window>)
    requires ws != []
    ensures ws == ws[..|ws| - 1] + [ws[|ws| - 1]]
  {
  }

  /** Lines that each read back as one window read back as those windows. */
  lemma {:induction false} WindowsOfLines(lines: seq<string>, ws: seq<Window>)
    requires |lines| == |ws|
    requires forall k {:trigger WindowOf(lines[k])} :: 0 <= k < |lines| ==> WindowOf(lines[k]) == Some(Some(ws[k]))
    ensures WindowsOf(lines) == Some(ws)
  {
    if lines != [] {
      var n := |lines| - 1;
      WindowsOfLines(lines[..n], ws[..n]);
      LastSplit(ws);
    }
  }

  lemma {:induction false} EachLineReadsBack(ws: seq<Window>)
    requires forall k :: 0 <= k < |ws| ==> IsWindowName(ws[k].name)
    ensures forall k :: 0 <= k < |ws| ==> WindowOf(FormatWindows(ws)[k]) == Some(Some(ws[k]))
  {
    forall k | 0 <= k < |ws|
      ensures WindowOf(FormatWindows(ws)[k]) == Some(Some(ws[k]))
    {
      FormatWindowsAt(ws, k);
      WindowLineRoundTrip(ws[k]);
    }
  }

  /** A printed window line is one line, starting and ending with something other than white space. */
  lemma {:induction false} WindowLineShape(w: Window)
    requires IsWindowName(w.name)
    ensures var line := FormatWindow(w);
      '\n' !in line && line != "" && !IsPySpace(line[0]) && !IsPySpace(line[|line| - 1])
  {
    DigitsHaveNoBar(w.index);
    DigitsHaveNoBar(w.paneCount);
    assert FormatWindow(w)[0] == IntToString(w.index)[0];
  }

  lemma {:induction false} WindowLinesShape(ws: seq<Window>)
    requires forall k :: 0 <= k < |ws| ==> IsWindowName(ws[k].name)
    ensures forall k :: 0 <= k < |ws| ==>
      var line := FormatWindows(ws)[k];
      '\n' !in line && line != "" && !IsPySpace(line[0]) && !IsPySpace(line[|line| - 1])
  {
    forall k | 0 <= k < |ws|
      ensures var line := FormatWindows(ws)[k];
        '\n' !in line && line != "" && !IsPySpace(line[0]) && !IsPySpace(line[|line| - 1])
    {
      FormatWindowsAt(ws, k);
      WindowLineShape(ws[k]);
    }
  }

  lemma {:induction false} WindowLinesRoundTrip(ws: seq<Window>)
    requires forall k :: 0 <= k < |ws| ==> IsWindowName(ws[k].name)
    ensures WindowsOf(FormatWindows(ws)) == Some(ws)
  {
    EachLineReadsBack(ws);
    WindowsOfLines(FormatWindows(ws), ws);
  }

  /**
   * What tmux prints for the windows `ws`, one line each, reads back as
   * exactly `ws`, active flags and pane counts included.
   */
  lemma {:induction false} WindowsRoundTrip(ws: seq<Window>)
    requires |ws| >= 1
    requires forall k :: 0 <= k < |ws| ==> IsWindowName(ws[k].name)
    ensures CommandOutput(Some(JoinWith(FormatWindows(ws), "\n") + "\n")) == Some(JoinWith(FormatWindows(ws), "\n"))
    ensures WindowsOf(SplitOn(JoinWith(FormatWindows(ws), "\n"), '\n')) == Some(ws)
  {
    var lines := FormatWindows(ws);
    WindowLinesShape(ws);
    JoinEnds(lines, "\n");
    PyStripLineEnd(JoinWith(lines, "\n"));
    SplitJoin(lines, '\n');
    WindowLinesRoundTrip(ws);
  }
}
