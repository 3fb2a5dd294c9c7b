/**
 * Folder sizes on the server (get_dir_sizes in app.py): the shell script
 * that runs `du` once per folder, and the parser of its output.
 */
module DirSizes {
  import opened Wrappers
  import opened Text
  import opened Decimal
  import opened Paths

  // ------------------------------------------------------------ the script

  /**
   * One folder's clause: `du -sb` (bytes, GNU), else `du -sk` (kilobytes,
   * BSD), else a line with size 0, each under a five-second timeout.
   */
  function DuClause(quoted: string): string {
    "timeout 5 du -sb " + quoted + " 2>/dev/null || "
    + "timeout 5 du -sk " + quoted + " 2>/dev/null || "
    + "echo '0\t'" + quoted
  }

  /** The clauses for `names` under `path`; `quote` stands for `shlex.quote`. */
  function Clauses(path: string, names: seq<string>, quote: string -> string): (r: seq<string>)
    ensures |r| == |names|
  {
    seq(|names|, i requires 0 <= i < |names| => DuClause(quote(PosixJoin(path, names[i]))))
  }

  /**
   * The command get_dir_sizes runs: None (the empty answer, no command) when
   * the path or the name list is empty; otherwise the clauses joined by
   * "; " and closed by "; exit 0", so the script succeeds whatever `du` does.
   */
  method DuScript(path: string, names: seq<string>, quote: string -> string) returns (cmd: Option<string>)
    ensures cmd.None? <==> path == "" || names == []
    ensures cmd.Some? ==> cmd.value == JoinWith(Clauses(path, names, quote), "; ") + "; exit 0"
  {
    if path == "" || names == [] {
      return None;
    }
    var parts: seq<string> := [];
    var i := 0;
    while i < |names|
      invariant 0 <= i <= |names|
      invariant parts == Clauses(path, names[..i], quote)
    {
      parts := parts + [DuClause(quote(PosixJoin(path, names[i])))];
      i := i + 1;
    }
    assert names[..|names|] == names;
    return Some(JoinWith(parts, "; ") + "; exit 0");
  }

  // ------------------------------------------------------------ the output

  /** `s.rstrip("/")`. */
  function RStripSlash(s: string): (r: string)
    ensures r == "" || r[|r| - 1] != '/'
  {
    if s != "" && s[|s| - 1] == '/' then RStripSlash(s[..|s| - 1]) else s
  }

  /** The position of the first `c` in `s`, when there is one. */
  function IndexOf(s: string, c: char): (r: int)
    requires c in s
    ensures 0 <= r < |s| && s[r] == c && c !in s[..r]
  {
    if s[0] == c then 0
    else
      assert s == [s[0]] + s[1..];
      1 + IndexOf(s[1..], c)
  }

  /** A folder size one output line records. */
  datatype Record = Record(name: string, size: int)

  /**
   * What one output line records: the folder name (the basename of the path
   * with trailing slashes stripped) and the size, when the line has a tab,
   * its first field is an integer and that integer is positive.
   */
  function LineRecord(line: string): (r: Option<Record>)
    ensures r.Some? ==> r.value.size > 0
  {
    if '\t' !in line then None
    else
      var tab := IndexOf(line, '\t');
      var name := LastSegment(RStripSlash(line[tab + 1..]));
      match ParsePyInt(line[..tab])
      case None => None
      case Some(v) => if v > 0 then Some(Record(name, v)) else None
  }

  /** `sizes` after one line: a record is added unless its name is there already. */
  function Add(sizes: map<string, int>, r: Option<Record>): map<string, int> {
    if r.Some? && r.value.name !in sizes then sizes[r.value.name := r.value.size] else sizes
  }

  /** The sizes recorded from `lines`, the first record of a name winning. */
  function DuSizes(lines: seq<string>): map<string, int> {
    if lines == [] then map[]
    else
      var m := DuSizes(lines[..|lines| - 1]);
      Add(m, LineRecord(lines[|lines| - 1]))
  }

  /** The lines of the command's output: `output.strip().split("\n")`. */
  function OutputLines(output: string): seq<string> {
    SplitOn(PyStrip(output), '\n')
  }

  /** The parse loop of get_dir_sizes over the decoded output of the script. */
  method ParseDuOutput(output: string) returns (sizes: map<string, int>)
    ensures sizes == DuSizes(OutputLines(output))
  {
    var lines := OutputLines(output);
    sizes := map[];
    var i := 0;
    while i < |lines|
      invariant 0 <= i <= |lines|
      invariant sizes == DuSizes(lines[..i])
    {
      var line := lines[i];
      assert lines[..i + 1] == lines[..i] + [line];
      ghost var before := sizes;
      DuSizesSnoc(lines[..i], line);
      if '\t' in line {
        var tab := IndexOf(line, '\t');
        var sizeText, dirPath := line[..tab], line[tab + 1..];
        var name := LastSegment(RStripSlash(dirPath));
        var value := ParsePyInt(sizeText);
        if value.Some? && value.value > 0 && name !in sizes {
          sizes := sizes[name := value.value];
        }
      }
      assert sizes == Add(before, LineRecord(line));
      i := i + 1;
    }
    assert lines[..|lines|] == lines;
  }

  lemma {:induction false} DuSizesSnoc(lines: seq<string>, line: string)
    ensures DuSizes(lines + [line]) == Add(DuSizes(lines), LineRecord(line))
    ensures '\t' !in line ==> LineRecord(line) == None
    ensures '\t' in line ==>
      (var tab := IndexOf(line, '\t');
       var value := ParsePyInt(line[..tab]);
       LineRecord(line) ==
         if value.Some? && value.value > 0 then Some(Record(LastSegment(RStripSlash(line[tab + 1..])), value.value))
         else None)
  {
    assert (lines + [line])[..|lines|] == lines;
  }

  /** An independent reading: the value of the first line that records `name`. */
  function FirstRecord(lines: seq<string>, name: string): Option<int> {
    if lines == [] then None
    else match LineRecord(lines[0])
      case Some(r) => if r.name == name then Some(r.size) else FirstRecord(lines[1..], name)
      case None => FirstRecord(lines[1..], name)
  }

  lemma {:induction false} FirstRecordSnoc(lines: seq<string>, last: string, name: string)
    ensures FirstRecord(lines + [last], name) ==
      if FirstRecord(lines, name).Some? then FirstRecord(lines, name)
      else if LineRecord(last).Some? && LineRecord(last).value.name == name then Some(LineRecord(last).value.size)
      else None
  {
    if lines == [] {
      assert [last][1..] == [];
    } else {
      FirstRecordSnoc(lines[1..], last, name);
      assert (lines + [last])[1..] == lines[1..] + [last];
    }
  }

  /**
   * The map holds exactly the names some line records, each with the value
   * of the first line that records it, and every value is positive.
   */
  lemma {:induction false} DuSizesFirstWins(lines: seq<string>)
    ensures forall name :: name in DuSizes(lines) <==> FirstRecord(lines, name).Some?
    ensures forall name :: name in DuSizes(lines) ==> DuSizes(lines)[name] == FirstRecord(lines, name).value
    ensures forall name :: name in DuSizes(lines) ==> DuSizes(lines)[name] > 0
  {
    if lines != [] {
      var init, last := lines[..|lines| - 1], lines[|lines| - 1];
      assert lines == init + [last];
      DuSizesFirstWins(init);
      forall name ensures FirstRecord(lines, name) == FirstRecord(init + [last], name) {
      }
      forall name {
        FirstRecordSnoc(init, last, name);
      }
    }
  }

  /** The fallback line for a folder `du` could not measure records nothing. */
  lemma {:induction false} FallbackRecordsNothing(path: string)
    ensures LineRecord("0\t" + path) == None
  {
    var line := "0\t" + path;
    assert line[1] == '\t' && line[0] != '\t';
    assert IndexOf(line, '\t') == 1;
    assert line[..1] == "0";
    assert ParsePyInt("0") == Some(0) by {
      IntRoundTrip(0);
    }
  }

  /** A line `du` prints for folder `name` under `path`, with a positive size, records that size for the name. */
  lemma {:induction false} DuLineRecords(size: nat, path: string, name: string)
    requires size > 0
    requires '/' !in name && name != ""
    ensures LineRecord(NatToString(size) + "\t" + PosixJoin(path, name)) == Some(Record(name, size))
  {
    var digits := NatToString(size);
    var joined := PosixJoin(path, name);
    var line := digits + "\t" + joined;
    assert '\t' !in digits by {
      assert forall i :: 0 <= i < |digits| ==> IsDigit(digits[i]);
    }
    assert line[|digits|] == '\t' && line[..|digits|] == digits;
    assert IndexOf(line, '\t') == |digits|;
    assert line[|digits| + 1..] == joined;
    assert joined[|joined| - 1] == name[|name| - 1];
    assert RStripSlash(joined) == joined;
    PosixJoinLastSegment(path, name);
    IntRoundTrip(size);
    assert IntToString(size) == digits;
  }
}
