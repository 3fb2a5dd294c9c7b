/**
 * Directory entries as the listing endpoint returns them, and the client's
 * sort order over them (getExtension and sortEntries in static/app.js).
 */
module Entries {
  import opened Wrappers
  import opened Text
  import opened Sorting

  /** One row of a directory listing; `dirSize` is filled in later by the size query. */
  datatype Entry = Entry(
    name: string,
    isDir: bool,
    isLink: bool,
    size: int,
    mode: string,
    mtime: int,
    dirSize: Option<int>)

  /** The three orders of the sort menu. */
  datatype SortMode = ByName | ByKind | BySize

  /** `state.sortMode` as the switch reads it: any value but "kind" and "size" sorts by name. */
  function ModeOf(value: string): (m: SortMode)
    ensures m == ByKind <==> value == "kind"
    ensures m == BySize <==> value == "size"
  {
    if value == "kind" then ByKind else if value == "size" then BySize else ByName
  }

  /** `s.lastIndexOf(c)`: the last position of `c`, or -1. */
  function LastIndexOf(s: string, c: char): (r: int)
    ensures -1 <= r < |s|
    ensures r >= 0 ==> s[r] == c && c !in s[r + 1..]
    ensures r == -1 ==> c !in s
  {
    if s == [] then -1
    else if s[|s| - 1] == c then |s| - 1
    else
      var r := LastIndexOf(s[..|s| - 1], c);
      assert s == s[..|s| - 1] + [s[|s| - 1]];
      r
  }

  /** No occurrence of `c` lies after `LastIndexOf(s, c)`. */
  lemma {:induction false} LastIndexOfAtLeast(s: string, c: char, k: int)
    requires 0 <= k < |s| && s[k] == c
    ensures LastIndexOf(s, c) >= k
  {
    if s[|s| - 1] != c {
      LastIndexOfAtLeast(s[..|s| - 1], c, k);
    }
  }

  lemma {:induction false} LowerKeepsDots(s: string)
    ensures '.' in Lower(s) <==> '.' in s
  {
    if '.' in Lower(s) {
      var i :| 0 <= i < |s| && Lower(s)[i] == '.';
      assert s[i] == '.';
    }
    if '.' in s {
      var i :| 0 <= i < |s| && s[i] == '.';
      assert Lower(s)[i] == '.';
    }
  }

  /**
   * The lower-cased text after the last dot, or "" when the only dot is the
   * first character (a hidden file) or there is none.
   */
  function GetExtension(name: string): (r: string)
    ensures '.' !in r
  {
    var dot := LastIndexOf(name, '.');
    if dot > 0 then
      LowerKeepsDots(name[dot + 1..]);
      Lower(name[dot + 1..])
    else ""
  }

  /** The extension of `stem.ext` is the lower-cased `ext` whenever the stem is not empty. */
  lemma {:induction false} ExtensionOfDotted(stem: string, ext: string)
    requires stem != [] && '.' !in ext
    ensures GetExtension(stem + "." + ext) == Lower(ext)
  {
    var name := stem + "." + ext;
    LastIndexOfAtLeast(name, '.', |stem|);
    assert forall i :: |stem| < i < |name| ==> name[i] == ext[i - |stem| - 1];
    assert name[|stem| + 1..] == ext;
  }

  /** A name whose only dot, if any, is its first character has no extension. */
  lemma {:induction false} NoExtension(name: string)
    requires name == [] || '.' !in name[1..]
    ensures GetExtension(name) == ""
  {
    assert forall i :: 1 <= i < |name| ==> name[i] == name[1..][i - 1];
  }

  function Direction(asc: bool): int {
    if asc then 1 else -1
  }

  /** `a.name.toLowerCase().localeCompare(b.name.toLowerCase())`. */
  function NameOrder(a: Entry, b: Entry): int {
    Compare(Lower(a.name), Lower(b.name))
  }

  /**
   * The comparator sortEntries hands to Array.prototype.sort.  Folders go
   * first in "name" and "kind" and last in "size" whatever the direction;
   * "kind" groups files by extension; "size" breaks ties by name without
   * applying the direction.
   */
  function EntryCompare(mode: SortMode, asc: bool, a: Entry, b: Entry): int {
    var dir := Direction(asc);
    match mode
    case ByKind =>
      if a.isDir != b.isDir then (if a.isDir then -1 else 1)
      else if !a.isDir && GetExtension(a.name) != GetExtension(b.name) then
        Compare(GetExtension(a.name), GetExtension(b.name)) * dir
      else NameOrder(a, b) * dir
    case BySize =>
      if a.isDir != b.isDir then (if a.isDir then 1 else -1)
      else if !a.isDir && a.size != b.size then (a.size - b.size) * dir
      else NameOrder(a, b)
    case ByName =>
      if a.isDir != b.isDir then (if a.isDir then -1 else 1)
      else NameOrder(a, b) * dir
  }

  function EntryOrder(mode: SortMode, asc: bool): (Entry, Entry) -> int {
    (a, b) => EntryCompare(mode, asc, a, b)
  }

  /** `sortEntries(entries, mode, asc)`: a sorted copy; the input is left alone. */
  function SortEntries(entries: seq<Entry>, mode: SortMode, asc: bool): seq<Entry> {
    SortBy(entries, EntryOrder(mode, asc))
  }

  /** Comparing in either direction: "not after" is transitive, and strictly so. */
  lemma {:induction false} DirectedTransitive(x: string, y: string, z: string, dir: int)
    requires dir == 1 || dir == -1
    ensures Compare(x, y) * dir <= 0 && Compare(y, z) * dir <= 0 ==> Compare(x, z) * dir <= 0
    ensures Compare(x, y) * dir < 0 && Compare(y, z) * dir <= 0 ==> Compare(x, z) * dir < 0
    ensures Compare(x, y) * dir <= 0 && Compare(y, z) * dir < 0 ==> Compare(x, z) * dir < 0
  {
    CompareAntisymmetric(x, y);
    CompareAntisymmetric(y, z);
    CompareAntisymmetric(x, z);
    if Compare(x, y) * dir <= 0 && Compare(y, z) * dir <= 0 {
      if dir == 1 {
        CompareTransitive(x, y, z);
        if Compare(x, y) < 0 || Compare(y, z) < 0 {
          CompareStrictTransitive(x, y, z);
        }
      } else {
        CompareTransitive(z, y, x);
        if Compare(z, y) < 0 || Compare(y, x) < 0 {
          CompareStrictTransitive(z, y, x);
        }
      }
    }
  }

  lemma {:induction false} EntryCompareFlips(mode: SortMode, asc: bool, a: Entry, b: Entry)
    ensures EntryCompare(mode, asc, a, b) < 0 <==> EntryCompare(mode, asc, b, a) > 0
  {
    CompareAntisymmetric(Lower(a.name), Lower(b.name));
    CompareAntisymmetric(GetExtension(a.name), GetExtension(b.name));
  }

  lemma {:induction false} EntryCompareTransitive(mode: SortMode, asc: bool, a: Entry, b: Entry, c: Entry)
    requires EntryCompare(mode, asc, a, b) <= 0 && EntryCompare(mode, asc, b, c) <= 0
    ensures EntryCompare(mode, asc, a, c) <= 0
  {
    var dir := Direction(asc);
    if a.isDir == b.isDir == c.isDir {
      DirectedTransitive(Lower(a.name), Lower(b.name), Lower(c.name), dir);
      DirectedTransitive(Lower(a.name), Lower(b.name), Lower(c.name), 1);
      match mode
      case ByKind =>
        DirectedTransitive(GetExtension(a.name), GetExtension(b.name), GetExtension(c.name), dir);
      case BySize =>
        if asc {
          assert dir == 1;
        } else {
          assert dir == -1;
        }
      case ByName =>
    }
  }

  /** Each sort mode's comparator is one Array.prototype.sort can rely on. */
  lemma {:induction false} EntryOrderConsistent(mode: SortMode, asc: bool)
    ensures Consistent(EntryOrder(mode, asc))
  {
    var cmp := EntryOrder(mode, asc);
    forall a, b
      ensures cmp(a, b) < 0 <==> cmp(b, a) > 0
    {
      EntryCompareFlips(mode, asc, a, b);
    }
    forall a, b, c | cmp(a, b) <= 0 && cmp(b, c) <= 0
      ensures cmp(a, c) <= 0
    {
      EntryCompareTransitive(mode, asc, a, b, c);
    }
  }

  /** Sorting rearranges the entries and neither drops nor adds any. */
  lemma {:induction false} SortEntriesPermutes(entries: seq<Entry>, mode: SortMode, asc: bool)
    ensures multiset(SortEntries(entries, mode, asc)) == multiset(entries)
    ensures |SortEntries(entries, mode, asc)| == |entries|
  {
    SortLength(entries, EntryOrder(mode, asc));
  }

  /**
   * In "name" and "kind" order every folder comes before every file, and in
   * "size" order every file before every folder, in both directions.
   */
  lemma {:induction false} FoldersGrouped(entries: seq<Entry>, mode: SortMode, asc: bool, i: int, j: int)
    requires 0 <= i < j < |SortEntries(entries, mode, asc)|
    ensures mode != BySize && SortEntries(entries, mode, asc)[j].isDir ==> SortEntries(entries, mode, asc)[i].isDir
    ensures mode == BySize && !SortEntries(entries, mode, asc)[j].isDir ==> !SortEntries(entries, mode, asc)[i].isDir
  {
    EntryOrderConsistent(mode, asc);
    SortSorted(entries, EntryOrder(mode, asc));
    var s := SortEntries(entries, mode, asc);
    assert EntryCompare(mode, asc, s[i], s[j]) <= 0;
  }

  /**
   * In "size" order, files of equal size keep ascending name order even when
   * the direction is descending: the tie-break ignores the direction.
   */
  lemma {:induction false} SizeTieBreakAscending(entries: seq<Entry>, asc: bool, i: int, j: int)
    requires 0 <= i < j < |SortEntries(entries, BySize, asc)|
    requires !SortEntries(entries, BySize, asc)[i].isDir && !SortEntries(entries, BySize, asc)[j].isDir
    requires SortEntries(entries, BySize, asc)[i].size == SortEntries(entries, BySize, asc)[j].size
    ensures Compare(Lower(SortEntries(entries, BySize, asc)[i].name), Lower(SortEntries(entries, BySize, asc)[j].name)) <= 0
  {
    EntryOrderConsistent(BySize, asc);
    SortSorted(entries, EntryOrder(BySize, asc));
    var s := SortEntries(entries, BySize, asc);
    assert EntryCompare(BySize, asc, s[i], s[j]) <= 0;
  }

  /**
   * In "name" order, entries on the same side of the folder/file split are in
   * ascending lower-cased name order when `asc` holds and descending otherwise.
   */
  lemma {:induction false} NameOrderDirected(entries: seq<Entry>, asc: bool, i: int, j: int)
    requires 0 <= i < j < |SortEntries(entries, ByName, asc)|
    requires SortEntries(entries, ByName, asc)[i].isDir == SortEntries(entries, ByName, asc)[j].isDir
    ensures asc ==> Compare(Lower(SortEntries(entries, ByName, asc)[i].name), Lower(SortEntries(entries, ByName, asc)[j].name)) <= 0
    ensures !asc ==> Compare(Lower(SortEntries(entries, ByName, asc)[i].name), Lower(SortEntries(entries, ByName, asc)[j].name)) >= 0
  {
    EntryOrderConsistent(ByName, asc);
    SortSorted(entries, EntryOrder(ByName, asc));
    var s := SortEntries(entries, ByName, asc);
    assert EntryCompare(ByName, asc, s[i], s[j]) <= 0;
  }

  /**
   * In "kind" order, files with different extensions are ordered by extension,
   * in the chosen direction.
   */
  lemma {:induction false} KindGroupsByExtension(entries: seq<Entry>, asc: bool, i: int, j: int)
    requires 0 <= i < j < |SortEntries(entries, ByKind, asc)|
    requires !SortEntries(entries, ByKind, asc)[i].isDir && !SortEntries(entries, ByKind, asc)[j].isDir
    ensures Compare(GetExtension(SortEntries(entries, ByKind, asc)[i].name),
                    GetExtension(SortEntries(entries, ByKind, asc)[j].name)) * Direction(asc) <= 0
  {
    EntryOrderConsistent(ByKind, asc);
    SortSorted(entries, EntryOrder(ByKind, asc));
    var s := SortEntries(entries, ByKind, asc);
    assert EntryCompare(ByKind, asc, s[i], s[j]) <= 0;
  }
}
