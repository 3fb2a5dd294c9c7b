/**
 * The Miller-column stack's records and the pure derivations the browser makes
 * from them: visible entries, selection ranges, drag sources, the path bar,
 * preview classification and the size-query bookkeeping.
 */
module Columns {
  import opened Wrappers
  import opened Text
  import opened Sorting
  import opened Entries
  import opened Paths

  /** The details a FileInfo column shows for a selected file. */
  datatype FileInfo = FileInfo(name: string, path: string, size: int, mode: string, mtime: int, isLink: bool)

  /**
   * A preview column's record.  `fetchPreview` only ever sets fields, so a
   * second reply for the same path adds to the first.
   */
  datatype Preview = Preview(
    path: string,
    name: string,
    error: Option<string>,
    pdf: bool,
    pdfData: Option<string>,
    image: bool,
    imageData: Option<string>,
    imageMime: Option<string>,
    binary: bool,
    content: Option<string>,
    truncated: Option<bool>,
    loaded: bool)

  /**
   * The three kinds of column.  A directory column whose fetch failed is a
   * Listing with an error and no entries.
   */
  datatype ColumnKind =
    | Listing(path: string, entries: seq<Entry>, error: Option<string>, sizesLoaded: bool)
    | Info(info: FileInfo)
    | PreviewPane(preview: Preview)

  /**
   * A column of `state.columns`.  `id` stands for the object's identity, which
   * the size query compares; `anchor` is `lastClickedIndex` and `cursor` is
   * `selectionCursor` (-1 when unset); `selected` is the Set of selected names
   * in insertion order.
   */
  datatype Column = Column(id: nat, kind: ColumnKind, selected: seq<string>, anchor: int, cursor: int)

  /** The body of the preview endpoint's JSON reply, as the client reads it. */
  datatype PreviewJson = PreviewJson(
    error: Option<string>,
    pdf: bool,
    image: bool,
    binary: bool,
    data: Option<string>,
    mime: Option<string>,
    content: Option<string>,
    truncated: Option<bool>)

  /** JavaScript truthiness of an optional string: present and not empty. */
  predicate Truthy(s: Option<string>) {
    s.Some? && s.value != ""
  }

  predicate NoDup<T(==)>(s: seq<T>) {
    forall i, j :: 0 <= i < j < |s| ==> s[i] != s[j]
  }

  /** A fresh directory column: nothing selected, no anchor, no cursor. */
  function ListingColumn(id: nat, path: string, entries: seq<Entry>): Column {
    Column(id, Listing(path, entries, None, false), [], -1, -1)
  }

  /** The column pushed when a directory cannot be listed. */
  function ErrorColumn(id: nat, path: string, error: Option<string>): Column {
    Column(id, Listing(path, [], error, false), [], -1, -1)
  }

  /** `column.path` is truthy: a directory column with a non-empty path. */
  predicate HasPath(c: Column) {
    c.kind.Listing? && c.kind.path != ""
  }

  /** The same column with its selection, anchor and cursor cleared. */
  function Cleared(c: Column): (r: Column)
    ensures r.id == c.id && r.kind == c.kind && r.selected == [] && r.anchor == -1 && r.cursor == -1
  {
    c.(selected := [], anchor := -1, cursor := -1)
  }

  // ---------------------------------------------------------------- visible entries

  predicate IsHiddenName(name: string) {
    |name| > 0 && name[0] == '.'
  }

  /** The filter of getVisibleEntries: `state.showHidden || !e.name.startsWith(".")`. */
  function Shows(showHidden: bool): Entry -> bool {
    (e: Entry) => showHidden || !IsHiddenName(e.name)
  }

  function ShownEntries(entries: seq<Entry>, showHidden: bool): seq<Entry> {
    Filter(entries, Shows(showHidden))
  }

  /**
   * `getVisibleEntries`: nothing for a FileInfo, preview or failed column;
   * otherwise the entries not starting with "." (all of them when hidden files
   * are shown), sorted in the current mode and direction.
   */
  function VisibleEntries(c: Column, showHidden: bool, mode: SortMode, asc: bool): seq<Entry> {
    if !c.kind.Listing? || Truthy(c.kind.error) then []
    else SortEntries(ShownEntries(c.kind.entries, showHidden), mode, asc)
  }

  /**
   * The visible entries are exactly the listed entries that are not hidden,
   * each as often as it is listed; folders are grouped as the mode says.
   */
  lemma {:induction false} VisibleEntriesSpec(c: Column, showHidden: bool, mode: SortMode, asc: bool)
    ensures !c.kind.Listing? || Truthy(c.kind.error) ==> VisibleEntries(c, showHidden, mode, asc) == []
    ensures c.kind.Listing? && !Truthy(c.kind.error) ==>
      forall e :: multiset(VisibleEntries(c, showHidden, mode, asc))[e]
        == if showHidden || !IsHiddenName(e.name) then multiset(c.kind.entries)[e] else 0
    ensures forall i, j :: 0 <= i < j < |VisibleEntries(c, showHidden, mode, asc)| ==>
      (mode != BySize && VisibleEntries(c, showHidden, mode, asc)[j].isDir ==> VisibleEntries(c, showHidden, mode, asc)[i].isDir) &&
      (mode == BySize && !VisibleEntries(c, showHidden, mode, asc)[j].isDir ==> !VisibleEntries(c, showHidden, mode, asc)[i].isDir)
  {
    if c.kind.Listing? && !Truthy(c.kind.error) {
      var shown := ShownEntries(c.kind.entries, showHidden);
      FilterMultiset(c.kind.entries, Shows(showHidden));
      SortEntriesPermutes(shown, mode, asc);
      forall i, j | 0 <= i < j < |VisibleEntries(c, showHidden, mode, asc)|
        ensures mode != BySize && VisibleEntries(c, showHidden, mode, asc)[j].isDir ==> VisibleEntries(c, showHidden, mode, asc)[i].isDir
        ensures mode == BySize && !VisibleEntries(c, showHidden, mode, asc)[j].isDir ==> !VisibleEntries(c, showHidden, mode, asc)[i].isDir
      {
        FoldersGrouped(shown, mode, asc, i, j);
      }
    }
  }

  /** `entries.findIndex((e) => e.name === name)`. */
  function IndexOfName(entries: seq<Entry>, name: string): (r: int)
    ensures -1 <= r < |entries|
    ensures r >= 0 ==> entries[r].name == name && forall j :: 0 <= j < r ==> entries[j].name != name
    ensures r == -1 ==> forall j :: 0 <= j < |entries| ==> entries[j].name != name
  {
    FindIndex(entries, (e: Entry) => e.name == name)
  }

  // ---------------------------------------------------------------- selection

  /** `set.add(name)` on a Set kept in insertion order. */
  function SetAdd(s: seq<string>, name: string): (r: seq<string>)
    ensures NoDup(s) ==> NoDup(r)
    ensures forall n :: n in r <==> n in s || n == name
  {
    if name in s then s else s + [name]
  }

  /**
   * The Set the shift-range loops build: the names of `entries[lo..hi]`, both
   * ends included, added in index order.
   */
  function RangeNames(entries: seq<Entry>, lo: int, hi: int): (r: seq<string>)
    requires 0 <= lo && hi < |entries|
    ensures NoDup(r)
    decreases hi - lo
  {
    if hi < lo then [] else SetAdd(RangeNames(entries, lo, hi - 1), entries[hi].name)
  }

  /** The range selection holds exactly the names at the indices between its two ends. */
  lemma {:induction false} RangeNamesSpec(entries: seq<Entry>, lo: int, hi: int)
    requires 0 <= lo && hi < |entries|
    ensures forall n :: n in RangeNames(entries, lo, hi) <==> exists i :: lo <= i <= hi && entries[i].name == n
    decreases hi - lo
  {
    if hi >= lo {
      RangeNamesSpec(entries, lo, hi - 1);
    }
  }

  /**
   * The range between an anchor and a clicked index is the same whichever of
   * the two comes first.
   */
  lemma {:induction false} RangeSymmetric(entries: seq<Entry>, a: int, k: int)
    requires 0 <= a < |entries| && 0 <= k < |entries|
    ensures RangeNames(entries, if a < k then a else k, if a < k then k else a)
         == RangeNames(entries, if k < a then k else a, if k < a then a else k)
  {
  }

  /**
   * Some index between `lo` and `hi` has no entry: the range loop reads
   * `.name` of `undefined` there and throws.
   */
  predicate RangeThrows(entries: seq<Entry>, lo: int, hi: int) {
    lo <= hi && (lo < 0 || hi >= |entries|)
  }

  /**
   * The Set a throwing range loop from `lo` leaves behind: the names of the
   * entries it read before the first missing one.
   */
  function RangeRead(entries: seq<Entry>, lo: int): (r: seq<string>)
    ensures NoDup(r)
  {
    if lo < 0 then [] else RangeNames(entries, lo, |entries| - 1)
  }

  /** A throwing loop keeps exactly the names of the entries from `lo` to the last one. */
  lemma {:induction false} RangeReadSpec(entries: seq<Entry>, lo: int)
    ensures lo < 0 ==> RangeRead(entries, lo) == []
    ensures lo >= 0 ==> forall n :: n in RangeRead(entries, lo) <==> exists i :: lo <= i < |entries| && entries[i].name == n
  {
    if lo >= 0 {
      RangeNamesSpec(entries, lo, |entries| - 1);
    }
  }

  /**
   * The loop `for (i = lo; i <= hi; i++) selected.add(entries[i].name)` on a
   * new Set: the whole range, or `threw` with the names read before the
   * first index that has no entry.
   */
  method CollectRange(entries: seq<Entry>, lo: int, hi: int) returns (names: seq<string>, threw: bool)
    requires lo <= hi
    ensures threw <==> RangeThrows(entries, lo, hi)
    ensures !threw ==> names == RangeNames(entries, lo, hi)
    ensures threw ==> names == RangeRead(entries, lo)
  {
    if lo < 0 || lo >= |entries| {
      assert lo >= 0 ==> RangeRead(entries, lo) == RangeNames(entries, lo, |entries| - 1) == [];
      return [], true;
    }
    var stop;
    names, stop := CollectWhilePresent(entries, lo, hi);
    threw := stop <= hi;
    if threw {
      assert stop == |entries| && RangeRead(entries, lo) == RangeNames(entries, lo, stop - 1);
    } else {
      assert stop == hi + 1;
    }
  }

  /** The range loop from a present row `lo`, run until `hi` or the first missing row, whichever comes first. */
  method CollectWhilePresent(entries: seq<Entry>, lo: int, hi: int) returns (names: seq<string>, stop: int)
    requires 0 <= lo < |entries| && lo <= hi
    ensures stop == if hi < |entries| then hi + 1 else |entries|
    ensures names == RangeNames(entries, lo, stop - 1)
  {
    names := [];
    stop := lo;
    while stop <= hi && stop < |entries|
      invariant lo <= stop <= hi + 1 && stop <= |entries|
      invariant names == RangeNames(entries, lo, stop - 1)
      decreases hi - stop
    {
      names := SetAdd(names, entries[stop].name);
      stop := stop + 1;
    }
  }

  /** `[...selected].pop()` compared by findIndex: the index of the last-added name, or -1. */
  function LastSelectedIndex(c: Column, visible: seq<Entry>): (r: int)
    ensures -1 <= r < |visible|
  {
    if c.selected == [] then -1 else IndexOfName(visible, c.selected[|c.selected| - 1])
  }

  /** The keyboard position: the cursor when set, else the last selected name's index. */
  function CursorIndex(c: Column, visible: seq<Entry>): int {
    if c.cursor >= 0 then c.cursor else LastSelectedIndex(c, visible)
  }

  /**
   * The names a drag from column `c` carries: the whole selection when the
   * dragged entry is selected, else that entry alone; each joined to the
   * column's path.
   */
  function DragSources(c: Column, name: string): (paths: seq<string>)
    requires c.kind.Listing?
    ensures name in c.selected ==> (|paths| == |c.selected| &&
      forall i :: 0 <= i < |paths| ==> paths[i] == JoinChild(c.kind.path, c.selected[i]))
    ensures name !in c.selected ==> paths == [JoinChild(c.kind.path, name)]
  {
    var names := if name in c.selected then c.selected else [name];
    seq(|names|, i requires 0 <= i < |names| => JoinChild(c.kind.path, names[i]))
  }

  /** The drop handler recovers each dragged name as the last segment of its path. */
  lemma {:induction false} DragSourcesNames(c: Column, name: string)
    requires c.kind.Listing?
    requires '/' !in name && forall i :: 0 <= i < |c.selected| ==> '/' !in c.selected[i]
    ensures forall i :: 0 <= i < |DragSources(c, name)| ==>
      LastSegment(DragSources(c, name)[i]) == (if name in c.selected then c.selected[i] else name)
  {
    var paths := DragSources(c, name);
    forall i | 0 <= i < |paths|
      ensures LastSegment(paths[i]) == (if name in c.selected then c.selected[i] else name)
    {
      ChildLastSegment(c.kind.path, if name in c.selected then c.selected[i] else name);
    }
  }

  // ---------------------------------------------------------------- breadcrumb and path bar

  /**
   * The deepest column with a truthy path (the directory the breadcrumb shows
   * and `cd` targets), or None.
   */
  function CurrentPath(columns: seq<Column>): (r: Option<string>)
    ensures r.Some? <==> exists i :: 0 <= i < |columns| && HasPath(columns[i])
    ensures r.Some? ==> (r.value != "" && exists i :: (0 <= i < |columns| && HasPath(columns[i]) && columns[i].kind.path == r.value
      && forall j :: i < j < |columns| ==> !HasPath(columns[j])))
  {
    if columns == [] then None
    else if HasPath(columns[|columns| - 1]) then Some(columns[|columns| - 1].kind.path)
    else
      var r := CurrentPath(columns[..|columns| - 1]);
      assert forall i :: 0 <= i < |columns| - 1 ==> columns[..|columns| - 1][i] == columns[i];
      r
  }

  /**
   * The path bar: scanning from the deepest column, a FileInfo column shows
   * its file, a directory column with exactly one selected name shows that
   * child, any other directory column shows itself; preview columns and
   * columns without a path are passed over.
   */
  function PathBar(columns: seq<Column>): (r: Option<string>)
    ensures r.Some? <==> exists i :: 0 <= i < |columns| && (columns[i].kind.Info? || HasPath(columns[i]))
    ensures r.Some? ==> exists i :: (
      && 0 <= i < |columns| && (columns[i].kind.Info? || HasPath(columns[i]))
      && (columns[i].kind.Info? ==> r.value == columns[i].kind.info.path)
      && (HasPath(columns[i]) && |columns[i].selected| == 1 ==> r.value == JoinChild(columns[i].kind.path, columns[i].selected[0]))
      && (HasPath(columns[i]) && |columns[i].selected| != 1 ==> r.value == columns[i].kind.path)
      && forall j :: i < j < |columns| ==> !columns[j].kind.Info? && !HasPath(columns[j]))
  {
    if columns == [] then None
    else
      var c := columns[|columns| - 1];
      if c.kind.Info? then Some(c.kind.info.path)
      else if HasPath(c) && |c.selected| == 1 then Some(JoinChild(c.kind.path, c.selected[0]))
      else if HasPath(c) then Some(c.kind.path)
      else
        var r := PathBar(columns[..|columns| - 1]);
        assert forall i :: 0 <= i < |columns| - 1 ==> columns[..|columns| - 1][i] == columns[i];
        r
  }

  /** Columns appended after the deepest path-carrying one do not change the path bar unless they carry a path. */
  lemma {:induction false} PathBarSkipsPreviews(columns: seq<Column>, p: Column)
    requires p.kind.PreviewPane?
    ensures PathBar(columns + [p]) == PathBar(columns)
  {
    assert (columns + [p])[..|columns|] == columns;
  }

  /** `state.columns.findIndex((c) => c.path === path)`. */
  function FindPathColumn(columns: seq<Column>, path: string): (r: int)
    ensures -1 <= r < |columns|
    ensures r >= 0 ==> (columns[r].kind.Listing? && columns[r].kind.path == path
      && forall j :: 0 <= j < r ==> !(columns[j].kind.Listing? && columns[j].kind.path == path))
    ensures r == -1 ==> forall j :: 0 <= j < |columns| ==> !(columns[j].kind.Listing? && columns[j].kind.path == path)
  {
    if columns == [] then -1
    else if columns[0].kind.Listing? && columns[0].kind.path == path then 0
    else
      var r := FindPathColumn(columns[1..], path);
      if r < 0 then -1 else r + 1
  }

  // ---------------------------------------------------------------- previews

  /** `name` ends in "." + `ext`, letters compared without case (the `/i` flag). */
  predicate EndsWithExtension(name: string, ext: string) {
    |name| > |ext| && name[|name| - |ext| - 1] == '.' && Lower(name[|name| - |ext|..]) == ext
  }

  /** `/\.(png|jpe?g|gif|webp|bmp|ico|svg)$/i.test(name)`. */
  predicate IsImageName(name: string) {
    EndsWithExtension(name, "png") || EndsWithExtension(name, "jpg") || EndsWithExtension(name, "jpeg")
    || EndsWithExtension(name, "gif") || EndsWithExtension(name, "webp") || EndsWithExtension(name, "bmp")
    || EndsWithExtension(name, "ico") || EndsWithExtension(name, "svg")
  }

  /** `/\.pdf$/i.test(name)`. */
  predicate IsPdfName(name: string) {
    EndsWithExtension(name, "pdf")
  }

  const MiB: int := 1024 * 1024

  /** The largest file the client asks to preview: 5 MiB for images, 10 MiB for PDFs, 1 MiB otherwise. */
  function MaxPreviewSize(name: string): (r: int)
    ensures IsImageName(name) ==> r == 5 * MiB
    ensures !IsImageName(name) && IsPdfName(name) ==> r == 10 * MiB
    ensures !IsImageName(name) && !IsPdfName(name) ==> r == MiB
  {
    if IsImageName(name) then 5 * MiB else if IsPdfName(name) then 10 * MiB else MiB
  }

  /**
   * What `fetchPreview` does to the preview record with a reply: the first of
   * error, pdf, image, binary that the reply carries decides which fields are
   * set, text content otherwise, and the record is marked loaded.
   */
  function ApplyPreviewJson(p: Preview, j: PreviewJson): (r: Preview)
    ensures r.loaded && r.path == p.path && r.name == p.name
    ensures Truthy(j.error) ==> r == p.(error := j.error, loaded := true)
    ensures !Truthy(j.error) && j.pdf ==> r == p.(pdf := true, pdfData := j.data, loaded := true)
    ensures !Truthy(j.error) && !j.pdf && j.image ==>
      r == p.(image := true, imageData := j.data, imageMime := j.mime, loaded := true)
    ensures !Truthy(j.error) && !j.pdf && !j.image && j.binary ==> r == p.(binary := true, loaded := true)
    ensures !Truthy(j.error) && !j.pdf && !j.image && !j.binary ==>
      r == p.(content := j.content, truncated := j.truncated, loaded := true)
  {
    var q :=
      if Truthy(j.error) then p.(error := j.error)
      else if j.pdf then p.(pdf := true, pdfData := j.data)
      else if j.image then p.(image := true, imageData := j.data, imageMime := j.mime)
      else if j.binary then p.(binary := true)
      else p.(content := j.content, truncated := j.truncated);
    q.(loaded := true)
  }

  /** The record a new preview column starts with. */
  function EmptyPreview(path: string, name: string): Preview {
    Preview(path, name, None, false, None, false, None, None, false, None, None, false)
  }

  /** `state.columns.find((c) => c.filePreview && c.filePreview.path === path)`, as an index. */
  function FindPreview(columns: seq<Column>, path: string): (r: int)
    ensures -1 <= r < |columns|
    ensures r >= 0 ==> (columns[r].kind.PreviewPane? && columns[r].kind.preview.path == path
      && forall j :: 0 <= j < r ==> !(columns[j].kind.PreviewPane? && columns[j].kind.preview.path == path))
    ensures r == -1 ==> forall j :: 0 <= j < |columns| ==> !(columns[j].kind.PreviewPane? && columns[j].kind.preview.path == path)
  {
    if columns == [] then -1
    else if columns[0].kind.PreviewPane? && columns[0].kind.preview.path == path then 0
    else
      var r := FindPreview(columns[1..], path);
      if r < 0 then -1 else r + 1
  }

  // ---------------------------------------------------------------- directory sizes

  /** `entries.filter((e) => e.is_dir).map((e) => e.name)`. */
  function DirNames(entries: seq<Entry>): (r: seq<string>)
    ensures forall n :: n in r <==> exists i :: 0 <= i < |entries| && entries[i].isDir && entries[i].name == n
  {
    if entries == [] then []
    else
      var rest := DirNames(entries[1..]);
      assert forall i :: 1 <= i < |entries| ==> entries[i] == entries[1..][i - 1];
      (if entries[0].isDir then [entries[0].name] else []) + rest
  }

  /** The request a size query sends for a column, remembering which column asked. */
  datatype SizesRequest = SizesRequest(colIndex: nat, columnId: nat, path: string, names: seq<string>)

  /** The guard of `fetchDirSizes`: a directory column with a path, sizes not yet asked for, and some folders. */
  predicate WantsSizes(c: Column) {
    HasPath(c) && !c.kind.sizesLoaded && DirNames(c.kind.entries) != []
  }

  /** The column after `fetchDirSizes` has run its synchronous part on it. */
  function SizesStarted(c: Column): (r: Column)
    ensures r.id == c.id && r.selected == c.selected && r.anchor == c.anchor && r.cursor == c.cursor
    ensures !WantsSizes(r)
  {
    if WantsSizes(c) then c.(kind := c.kind.(sizesLoaded := true)) else c
  }

  /** The request `fetchDirSizes(colIndex)` sends for column `c`, if any. */
  function SizesQuery(colIndex: nat, c: Column): (r: Option<SizesRequest>)
    ensures r.Some? <==> WantsSizes(c)
    ensures r.Some? ==> (r.value.colIndex == colIndex && r.value.columnId == c.id
      && r.value.path == c.kind.path && r.value.names == DirNames(c.kind.entries))
  {
    if WantsSizes(c) then Some(SizesRequest(colIndex, c.id, c.kind.path, DirNames(c.kind.entries))) else None
  }

  /** One entry after the size reply: folders named in the reply take their size. */
  function WithDirSize(e: Entry, sizes: map<string, int>): (r: Entry)
    ensures r == e || (e.isDir && e.name in sizes && r == e.(dirSize := Some(sizes[e.name])))
  {
    if e.isDir && e.name in sizes then e.(dirSize := Some(sizes[e.name])) else e
  }

  /** The entries after the size reply has been applied to each in turn. */
  function WithDirSizes(entries: seq<Entry>, sizes: map<string, int>): (r: seq<Entry>)
    ensures |r| == |entries|
  {
    seq(|entries|, i requires 0 <= i < |entries| => WithDirSize(entries[i], sizes))
  }

  /**
   * The size reply changes nothing but `dirSize`, and sets it exactly on the
   * folders the reply names.
   */
  lemma {:induction false} WithDirSizesSpec(entries: seq<Entry>, sizes: map<string, int>)
    ensures forall i :: 0 <= i < |entries| ==>
      WithDirSizes(entries, sizes)[i].(dirSize := entries[i].dirSize) == entries[i]
    ensures forall i :: 0 <= i < |entries| && entries[i].isDir && entries[i].name in sizes ==>
      WithDirSizes(entries, sizes)[i].dirSize == Some(sizes[entries[i].name])
    ensures forall i :: 0 <= i < |entries| && !(entries[i].isDir && entries[i].name in sizes) ==>
      WithDirSizes(entries, sizes)[i] == entries[i]
  {
  }

  // ---------------------------------------------------------------- refresh

  /** The selection after a refresh: the selected names still in the new listing, in order. */
  function KeepListed(selected: seq<string>, names: seq<string>): (r: seq<string>)
    ensures |r| <= |selected|
  {
    if selected == [] then []
    else
      var last := selected[|selected| - 1];
      KeepListed(selected[..|selected| - 1], names) + (if last in names then [last] else [])
  }

  /** A refresh removes from the selection exactly the names absent from the new listing. */
  lemma {:induction false} KeepListedSpec(selected: seq<string>, names: seq<string>)
    ensures forall n :: n in KeepListed(selected, names) <==> n in selected && n in names
    ensures NoDup(selected) ==> NoDup(KeepListed(selected, names))
  {
    if selected != [] {
      var init := selected[..|selected| - 1];
      KeepListedSpec(init, names);
      assert selected == init + [selected[|selected| - 1]];
      if NoDup(selected) {
        assert NoDup(init);
        assert selected[|selected| - 1] !in init;
      }
    }
  }

  /** The `for (const name of col.selected) if (!names.has(name)) col.selected.delete(name)` loop. */
  method PruneSelection(selected: seq<string>, names: seq<string>) returns (kept: seq<string>)
    ensures kept == KeepListed(selected, names)
  {
    kept := [];
    var i := 0;
    while i < |selected|
      invariant 0 <= i <= |selected|
      invariant kept == KeepListed(selected[..i], names)
    {
      assert selected[..i + 1][..i] == selected[..i];
      if selected[i] in names {
        kept := kept + [selected[i]];
      }
      i := i + 1;
    }
    assert selected[..i] == selected;
  }

  function EntryNames(entries: seq<Entry>): (r: seq<string>)
    ensures |r| == |entries| && forall i :: 0 <= i < |entries| ==> r[i] == entries[i].name
  {
    seq(|entries|, i requires 0 <= i < |entries| => entries[i].name)
  }

  /**
   * One column after `refreshColumns`' fetch: a directory column with a path
   * whose listing came back takes the new entries and drops vanished names
   * from its selection; anchor and cursor stay as they were.
   */
  function RefreshColumn(c: Column, reply: Option<seq<Entry>>): (r: Column)
    ensures r.id == c.id && r.anchor == c.anchor && r.cursor == c.cursor
    ensures !(HasPath(c) && reply.Some?) ==> r == c
    ensures HasPath(c) && reply.Some? ==>
      r.kind == c.kind.(entries := reply.value) && r.selected == KeepListed(c.selected, EntryNames(reply.value))
  {
    if HasPath(c) && reply.Some? then
      c.(kind := c.kind.(entries := reply.value), selected := KeepListed(c.selected, EntryNames(reply.value)))
    else c
  }

  /** The column after the refresh's second loop: sizes forgotten and asked for again. */
  function Resized(c: Column): (r: Column)
    ensures r.id == c.id && r.selected == c.selected && r.anchor == c.anchor && r.cursor == c.cursor
    ensures !HasPath(c) ==> r == c
  {
    if HasPath(c) then SizesStarted(c.(kind := c.kind.(sizesLoaded := false))) else c
  }

  /** The size requests the refresh's second loop sends, in column order from `from` on. */
  function ResizeRequests(columns: seq<Column>, from: nat): seq<SizesRequest>
    requires from <= |columns|
    decreases |columns| - from
  {
    if from == |columns| then []
    else
      var q := ResizeQuery(from, columns[from]);
      (if q.Some? then [q.value] else []) + ResizeRequests(columns, from + 1)
  }

  lemma {:induction false} ResizeRequestsStep(columns: seq<Column>, from: nat, done: seq<SizesRequest>)
    requires from < |columns|
    ensures var q := ResizeQuery(from, columns[from]);
      done + ResizeRequests(columns, from) == (done + if q.Some? then [q.value] else []) + ResizeRequests(columns, from + 1)
  {
  }

  /** The size request the refresh sends for column `c` at `colIndex`: one for a column with a path that wants sizes again. */
  function ResizeQuery(colIndex: nat, c: Column): (r: Option<SizesRequest>)
    ensures r.Some? ==> HasPath(c) && r.value.colIndex == colIndex && r.value.columnId == c.id && r.value.path == c.kind.path
  {
    if HasPath(c) then SizesQuery(colIndex, c.(kind := c.kind.(sizesLoaded := false))) else None
  }
}
