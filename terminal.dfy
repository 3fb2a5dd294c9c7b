/**
 * The terminal helpers of static/app.js: the cursor-position query that
 * powers click-to-move (a Device Status Report, ECMA-48 section 8.3.35,
 * answered by a Cursor Position Report, section 8.3.14), the arrow keys a
 * click sends (CUF and CUB, sections 8.3.20 and 8.3.18), and the backslash
 * escaping of the `cd` command (POSIX Shell Command Language, section
 * 2.2.1).
 */
module Terminal {
  import opened Wrappers
  import opened Text
  import opened Decimal
  import opened Columns

  const Esc: char := '\U{1b}'

  /** DSR with parameter 6: "report the active position". */
  const DeviceStatusReport: string := [Esc] + "[6n"

  /** CUF and CUB with the default parameter: one column right, one column left. */
  const CursorForward: string := [Esc] + "[C"
  const CursorBackward: string := [Esc] + "[D"

  /** A decoded position report, 0-based. */
  datatype Cpr = Cpr(row: int, col: int)

  /** The length of the run of ASCII digits starting at `p`. */
  function DigitRun(s: string, p: nat): (n: nat)
    requires p <= |s|
    ensures p + n <= |s|
    ensures forall q :: p <= q < p + n ==> IsDigit(s[q])
    ensures p + n < |s| ==> !IsDigit(s[p + n])
    decreases |s| - p
  {
    if p < |s| && IsDigit(s[p]) then 1 + DigitRun(s, p + 1) else 0
  }

  /**
   * `s[i..k+1]` is a report `ESC [ row ; col R` whose `;` is at `m`: the
   * text `\x1b\[(\d+);(\d+)R` matches there.
   */
  predicate Matches(s: string, i: nat, m: nat, k: nat) {
    && i + 2 < m && m + 1 < k < |s|
    && s[i] == Esc && s[i + 1] == '['
    && AllDigits(s[i + 2..m]) && s[m] == ';'
    && AllDigits(s[m + 1..k]) && s[k] == 'R'
  }

  /** The report such a match carries, converted to 0-based row and column. */
  function Decode(s: string, i: nat, m: nat, k: nat): Cpr
    requires Matches(s, i, m, k)
  {
    Cpr(DigitsValue(s[i + 2..m]) - 1, DigitsValue(s[m + 1..k]) - 1)
  }

  /** The report that starts at index `i` of `s`, if one does. */
  function CprAt(s: string, i: nat): Option<Cpr> {
    if i + 1 >= |s| || s[i] != Esc || s[i + 1] != '[' then None
    else
      var a := DigitRun(s, i + 2);
      var m := i + 2 + a;
      if a == 0 || m >= |s| || s[m] != ';' then None
      else
        var b := DigitRun(s, m + 1);
        var k := m + 1 + b;
        if b == 0 || k >= |s| || s[k] != 'R' then None
        else
          assert Matches(s, i, m, k);
          Some(Decode(s, i, m, k))
  }

  /** Every report CprAt finds is a match of the pattern, decoded. */
  lemma {:induction false} CprAtMatches(s: string, i: nat) returns (m: nat, k: nat)
    requires CprAt(s, i).Some?
    ensures Matches(s, i, m, k) && CprAt(s, i).value == Decode(s, i, m, k)
  {
    m := i + 2 + DigitRun(s, i + 2);
    k := m + 1 + DigitRun(s, m + 1);
  }

  /** A run of digits followed by a non-digit has exactly that length. */
  lemma {:induction false} DigitRunExact(s: string, p: nat, q: nat)
    requires p <= q < |s| && AllDigits(s[p..q]) && !IsDigit(s[q])
    ensures DigitRun(s, p) == q - p
    decreases q - p
  {
    if p < q {
      assert IsDigit(s[p..q][0]);
      assert s[p + 1..q] == s[p..q][1..];
      DigitRunExact(s, p + 1, q);
    }
  }

  /** Every match of the pattern is found by CprAt: the two definitions agree. */
  lemma {:induction false} MatchesCprAt(s: string, i: nat, m: nat, k: nat)
    requires Matches(s, i, m, k)
    ensures CprAt(s, i) == Some(Decode(s, i, m, k))
  {
    DigitRunExact(s, i + 2, m);
    DigitRunExact(s, m + 1, k);
  }

  /** The leftmost report at or after `from`. */
  function FindCprFrom(s: string, from: nat): Option<Cpr>
    decreases |s| - from
  {
    if from >= |s| then None
    else if CprAt(s, from).Some? then CprAt(s, from)
    else FindCprFrom(s, from + 1)
  }

  /** FindCprFrom finds the report with no report before it, and finds nothing only when there is none. */
  lemma {:induction false} FindCprFromSpec(s: string, from: nat)
    ensures FindCprFrom(s, from).Some? ==>
      exists i :: from <= i < |s| && CprAt(s, i) == FindCprFrom(s, from) && forall j :: from <= j < i ==> CprAt(s, j).None?
    ensures FindCprFrom(s, from).None? ==> forall j :: from <= j < |s| ==> CprAt(s, j).None?
  {
    var i := FirstCprFrom(s, from);
  }

  /** The index FindCprFrom stops at: the first report at or after `from`, or `|s|` when there is none. */
  lemma {:induction false} FirstCprFrom(s: string, from: nat) returns (i: nat)
    ensures FindCprFrom(s, from).Some? ==> from <= i < |s| && CprAt(s, i) == FindCprFrom(s, from)
    ensures FindCprFrom(s, from).None? ==> i == |s|
    ensures forall j :: from <= j < i ==> CprAt(s, j).None?
    decreases |s| - from
  {
    if from >= |s| || CprAt(s, from).Some? {
      i := if from >= |s| then |s| else from;
    } else {
      i := FirstCprFrom(s, from + 1);
    }
  }

  /** `responseData.match(/\x1b\[(\d+);(\d+)R/)`, decoded. */
  function FindCpr(s: string): Option<Cpr> {
    FindCprFrom(s, 0)
  }

  /** A digit run in a prefix that stops at a non-digit inside the prefix is the same run in the whole text. */
  lemma {:induction false} DigitRunStops(u: string, s: string, p: nat, q: nat)
    requires |s| <= |u| && s == u[..|s|]
    requires p <= q < |s| && !IsDigit(s[q])
    ensures DigitRun(u, p) == DigitRun(s, p) && p + DigitRun(s, p) <= q
    decreases q - p
  {
    if p < q && IsDigit(s[p]) {
      DigitRunStops(u, s, p + 1, q);
    }
  }

  /** A report complete inside a prefix is read the same in the whole text. */
  lemma {:induction false} AgreeAt(u: string, s: string, i: nat)
    requires |s| <= |u| && s == u[..|s|]
    ensures CprAt(s, i).Some? ==> CprAt(u, i) == CprAt(s, i)
  {
    if CprAt(s, i).Some? {
      var m, k := CprAtMatches(s, i);
      assert s[i + 2..m] == u[i + 2..m] && s[m + 1..k] == u[m + 1..k];
      assert Matches(u, i, m, k);
      MatchesCprAt(s, i, m, k);
      MatchesCprAt(u, i, m, k);
    }
  }

  /** No character after the ESC of a report, up to its final R, is an ESC. */
  lemma {:induction false} NoEscInside(u: string, j: nat, m: nat, k: nat)
    requires Matches(u, j, m, k)
    ensures forall p :: j < p <= k ==> u[p] != Esc
  {
    forall p | j < p <= k
      ensures u[p] != Esc
    {
      if j + 2 <= p < m {
        assert u[j + 2..m][p - j - 2] == u[p];
      } else if m < p < k {
        assert u[m + 1..k][p - m - 1] == u[p];
      }
    }
  }

  /** A report in the whole text that starts before an ESC of the prefix ends inside the prefix. */
  lemma {:induction false} MatchBeforeEsc(u: string, s: string, j: nat, i: nat)
    requires |s| <= |u| && s == u[..|s|]
    requires j < i < |s| && s[i] == Esc
    ensures CprAt(u, j).Some? ==> CprAt(s, j) == CprAt(u, j)
  {
    if CprAt(u, j).Some? {
      var m, k := CprAtMatches(u, j);
      NoEscInside(u, j, m, k);
      assert u[i] == Esc;
      assert k < i;
      assert s[j + 2..m] == u[j + 2..m] && s[m + 1..k] == u[m + 1..k];
      assert Matches(s, j, m, k);
      MatchesCprAt(s, j, m, k);
      MatchesCprAt(u, j, m, k);
    }
  }

  /**
   * Before an ESC inside the prefix, whether a report starts at `j` is decided
   * by the prefix: the ESC cannot be part of a report that starts earlier.
   */
  lemma {:induction false} AgreeBefore(u: string, s: string, j: nat, i: nat)
    requires |s| <= |u| && s == u[..|s|]
    requires j < i < |s| && s[i] == Esc
    ensures CprAt(u, j) == CprAt(s, j)
  {
    AgreeAt(u, s, j);
    MatchBeforeEsc(u, s, j, i);
  }

  /** The index of the leftmost report at or after `from`. */
  lemma {:induction false} LeftmostAt(s: string, from: nat) returns (i: nat)
    requires FindCprFrom(s, from).Some?
    ensures from <= i < |s| && CprAt(s, i) == FindCprFrom(s, from) && s[i] == Esc
    ensures forall j :: from <= j < i ==> CprAt(s, j).None?
  {
    FindCprFromSpec(s, from);
    i :| from <= i < |s| && CprAt(s, i) == FindCprFrom(s, from) && forall j :: from <= j < i ==> CprAt(s, j).None?;
  }

  /** Once a report is found, more text after it does not change which report is leftmost. */
  lemma {:induction false} FindCprFromAppend(s: string, t: string, from: nat)
    requires FindCprFrom(s, from).Some?
    ensures FindCprFrom(s + t, from) == FindCprFrom(s, from)
    decreases |s| - from
  {
    var u := s + t;
    assert s == u[..|s|];
    AgreeAt(u, s, from);
    if CprAt(s, from).None? {
      var i := LeftmostAt(s, from);
      AgreeBefore(u, s, from, i);
      assert FindCprFrom(s, from) == FindCprFrom(s, from + 1);
      FindCprFromAppend(s, t, from + 1);
    }
  }

  lemma {:induction false} FindCprAppend(s: string, t: string)
    requires FindCpr(s).Some?
    ensures FindCpr(s + t) == FindCpr(s)
  {
    FindCprFromAppend(s, t, 0);
  }

  /** What a listener with `buffer` so far reports when the chunks arrive one by one. */
  function Listen(buffer: string, chunks: seq<string>): Option<Cpr>
    decreases chunks
  {
    if chunks == [] then None
    else
      var b := buffer + chunks[0];
      if FindCpr(b).Some? then FindCpr(b) else Listen(b, chunks[1..])
  }

  /**
   * Checking after every chunk gives the same answer as matching the whole
   * stream at once: the listener reports the leftmost report of everything
   * it receives, and nothing when there is none.
   */
  lemma {:induction false} ListenIsLeftmost(buffer: string, chunks: seq<string>)
    requires FindCpr(buffer).None?
    ensures Listen(buffer, chunks) == FindCpr(buffer + Concat(chunks))
    decreases chunks
  {
    if chunks == [] {
      assert buffer + Concat(chunks) == buffer;
    } else {
      var b := buffer + chunks[0];
      assert buffer + Concat(chunks) == b + Concat(chunks[1..]);
      if FindCpr(b).Some? {
        FindCprAppend(b, Concat(chunks[1..]));
      } else {
        ListenIsLeftmost(b, chunks[1..]);
      }
    }
  }

  /**
   * The `requestCursorPosition` listener: data is appended while listening,
   * and the first time the buffer holds a report it is handed over and
   * listening stops; the timeout stops it too.
   */
  class CursorQuery {
    var buffer: string
    var listening: bool

    ghost predicate Valid()
      reads this
    {
      listening ==> FindCpr(buffer).None?
    }

    /** The listener right after the DSR query was sent. */
    constructor ()
      ensures Valid() && buffer == "" && listening
    {
      buffer := "";
      listening := true;
    }

    method OnData(data: string) returns (reported: Option<Cpr>)
      requires Valid()
      modifies this
      ensures Valid()
      ensures !old(listening) ==> unchanged(this) && reported.None?
      ensures old(listening) ==>
        buffer == old(buffer) + data && reported == FindCpr(buffer) && listening == reported.None?
    {
      if !listening {
        return None;
      }
      buffer := buffer + data;
      reported := FindCpr(buffer);
      if reported.Some? {
        listening := false;
      }
    }

    method Timeout()
      requires Valid()
      modifies this
      ensures Valid() && !listening && buffer == old(buffer)
    {
      listening := false;
    }
  }

  // ------------------------------------------------------------ click-to-move

  function Repeat(s: string, n: nat): (r: string)
    ensures |r| == |s| * n
  {
    if n == 0 then "" else s + Repeat(s, n - 1)
  }

  function Abs(x: int): nat {
    if x < 0 then -x else x
  }

  /**
   * The keys the click handler sends: nothing when xterm's cursor row is not
   * the reported row or the click is on the cursor's column; otherwise one CUF
   * per column to the right, or one CUB per column to the left.
   */
  function ClickKeys(clickCol: int, cursorCol: int, cursorY: int, reportedRow: int): Option<string> {
    if cursorY != reportedRow then None
    else
      var diff := clickCol - cursorCol;
      if diff == 0 then None
      else Some(Repeat(if diff > 0 then CursorForward else CursorBackward, Abs(diff)))
  }

  /** Where a line editor's cursor ends after a string of CUF/CUB keys, ignoring the line's ends. */
  function CursorAfter(col: int, keys: string): int
    decreases |keys|
  {
    if |keys| >= 3 && keys[..3] == CursorForward then CursorAfter(col + 1, keys[3..])
    else if |keys| >= 3 && keys[..3] == CursorBackward then CursorAfter(col - 1, keys[3..])
    else col
  }

  lemma {:induction false} RepeatMoves(col: int, n: nat)
    ensures CursorAfter(col, Repeat(CursorForward, n)) == col + n
    ensures CursorAfter(col, Repeat(CursorBackward, n)) == col - n
    decreases n
  {
    if n > 0 {
      RepeatMoves(col + 1, n - 1);
      RepeatMoves(col - 1, n - 1);
      var f := Repeat(CursorForward, n - 1);
      var b := Repeat(CursorBackward, n - 1);
      assert (CursorForward + f)[..3] == CursorForward && (CursorForward + f)[3..] == f;
      assert (CursorBackward + b)[..3] == CursorBackward && (CursorBackward + b)[3..] == b;
      assert CursorForward[2] == 'C' && CursorBackward[2] == 'D';
    }
  }

  /**
   * Keys are sent exactly when the rows agree and the columns differ, and
   * they move the cursor onto the clicked column, three characters per column.
   */
  lemma {:induction false} ClickKeysReachClick(clickCol: int, cursorCol: int, cursorY: int, reportedRow: int)
    ensures ClickKeys(clickCol, cursorCol, cursorY, reportedRow).Some? <==> cursorY == reportedRow && clickCol != cursorCol
    ensures ClickKeys(clickCol, cursorCol, cursorY, reportedRow).Some? ==>
      var keys := ClickKeys(clickCol, cursorCol, cursorY, reportedRow).value;
      CursorAfter(cursorCol, keys) == clickCol && |keys| == 3 * Abs(clickCol - cursorCol)
  {
    RepeatMoves(cursorCol, Abs(clickCol - cursorCol));
  }

  // ------------------------------------------------------------ cd escaping

  /** The characters `cdToBrowserPath` puts a backslash before. */
  predicate IsEscaped(c: char) {
    c in " '\"\\$`!&()[]{}|;*?<>"
  }

  function ShellEscape(s: string): (r: string)
    ensures |r| >= |s|
  {
    if s == [] then [] else (if IsEscaped(s[0]) then ['\\', s[0]] else [s[0]]) + ShellEscape(s[1..])
  }

  /**
   * Characters that, unquoted, end a shell word or give it a meaning other
   * than itself: blanks and newline, the operators, quoting and expansion
   * characters, and pattern characters (sections 2.2, 2.3 and 2.13 of the
   * POSIX Shell Command Language).
   */
  predicate IsShellSpecial(c: char) {
    c in "|&;<>()$`\\\"' \t\n*?["
  }

  /**
   * Characters special only at the start of a word: `~` begins a tilde
   * prefix (section 2.6.1) and `#` a comment (section 2.3, rule 9).
   */
  predicate IsWordInitialSpecial(c: char) {
    c == '~' || c == '#'
  }

  /**
   * How a POSIX shell reads `s` as one unquoted word: a word starting with
   * `~` or `#` is not literal (None); otherwise as ReadChars reads it.
   */
  function ReadWord(s: string): Option<string> {
    if s != [] && IsWordInitialSpecial(s[0]) then None else ReadChars(s)
  }

  /**
   * The characters of an unquoted word: a backslash keeps the next character
   * literally (except newline, a line continuation), and any other special
   * character means `s` is not one literal word (None).
   */
  function ReadChars(s: string): Option<string> {
    if s == [] then Some([])
    else if s[0] == '\\' then
      if |s| >= 2 && s[1] != '\n' then
        match ReadChars(s[2..]) { case None => None case Some(w) => Some([s[1]] + w) }
      else None
    else if IsShellSpecial(s[0]) then None
    else match ReadChars(s[1..]) { case None => None case Some(w) => Some([s[0]] + w) }
  }

  /** Escaping keeps the first character first, behind a backslash when it is escaped. */
  lemma {:induction false} ShellEscapeHead(p: string)
    requires p != []
    ensures ShellEscape(p)[0] == (if IsEscaped(p[0]) then '\\' else p[0])
  {
    var rest := ShellEscape(p[1..]);
    if IsEscaped(p[0]) {
      assert ShellEscape(p) == ['\\', p[0]] + rest;
    } else {
      assert ShellEscape(p) == [p[0]] + rest;
    }
  }

  /** For a path without tab or newline, the shell reads the escaped characters back as exactly that path. */
  lemma {:induction false} ShellEscapeCharsRoundTrip(p: string)
    requires '\t' !in p && '\n' !in p
    ensures ReadChars(ShellEscape(p)) == Some(p)
  {
    if p != [] {
      ShellEscapeCharsRoundTrip(p[1..]);
      var rest := ShellEscape(p[1..]);
      if IsEscaped(p[0]) {
        assert ShellEscape(p) == ['\\', p[0]] + rest;
        assert (['\\', p[0]] + rest)[2..] == rest;
      } else {
        assert ShellEscape(p) == [p[0]] + rest;
        assert ([p[0]] + rest)[1..] == rest;
      }
      assert [p[0]] + p[1..] == p;
    }
  }

  /**
   * For a path without tab or newline that does not start with `~` or `#`,
   * the shell reads the escaped path back as exactly that path.
   */
  lemma {:induction false} ShellEscapeRoundTrip(p: string)
    requires '\t' !in p && '\n' !in p
    requires p == [] || !IsWordInitialSpecial(p[0])
    ensures ReadWord(ShellEscape(p)) == Some(p)
  {
    ShellEscapeCharsRoundTrip(p);
    if p != [] {
      ShellEscapeHead(p);
    }
  }

  /** A leading `~` or `#` is left unescaped, so such a path is never read back literally. */
  lemma {:induction false} ShellEscapeLeadingSpecial(p: string)
    requires p != [] && IsWordInitialSpecial(p[0])
    ensures ReadWord(ShellEscape(p)).None?
  {
    ShellEscapeHead(p);
  }

  /** Tab and newline are left unescaped, so a path holding one is never read back as one word. */
  lemma {:induction false} ShellEscapeUnreadable(p: string)
    requires '\t' in p || '\n' in p
    ensures ReadWord(ShellEscape(p)).None?
  {
    ShellEscapeCharsUnreadable(p);
  }

  /** Tab and newline are left unescaped, so the characters of such a path do not read back. */
  lemma {:induction false} ShellEscapeCharsUnreadable(p: string)
    requires '\t' in p || '\n' in p
    ensures ReadChars(ShellEscape(p)).None?
  {
    var rest := ShellEscape(p[1..]);
    if p[0] == '\t' || p[0] == '\n' {
      assert ShellEscape(p) == [p[0]] + rest;
    } else {
      assert p == [p[0]] + p[1..];
      ShellEscapeCharsUnreadable(p[1..]);
      if IsEscaped(p[0]) {
        assert ShellEscape(p) == ['\\', p[0]] + rest;
        assert (['\\', p[0]] + rest)[2..] == rest;
      } else {
        assert ShellEscape(p) == [p[0]] + rest;
        assert ([p[0]] + rest)[1..] == rest;
      }
    }
  }

  /** `cdToBrowserPath`: `cd` to the deepest column's path, escaped, when there is one. */
  function CdCommand(columns: seq<Column>): (r: Option<string>)
    ensures r.Some? <==> CurrentPath(columns).Some?
    ensures r.Some? ==> r.value == "cd " + ShellEscape(CurrentPath(columns).value) + "\n"
  {
    match CurrentPath(columns)
    case None => None
    case Some(p) => Some("cd " + ShellEscape(p) + "\n")
  }
}
