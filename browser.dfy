/**
 * The file browser's mutable state (`state.columns`, `state.focusedColumn`,
 * `state.renaming`, the sort settings and `selectGeneration` in
 * static/app.js) and the handlers that change it.  Every `await` splits a
 * handler: the part before it is one method, and what runs when the awaited
 * promise settles is another method, called with the settled value.
 */
module Browser {
  import opened Wrappers
  import opened Text
  import opened Entries
  import opened Paths
  import opened Columns

  /** `state.renaming`: the column and the name being renamed inline. */
  datatype RenameTarget = RenameTarget(colIndex: int, name: string)

  /** A directory listing `selectEntry` asked for, with the generation it captured. */
  datatype DirFetch = DirFetch(gen: nat, colIndex: nat, path: string)

  /** How the `fetch` of a directory listing settled. */
  datatype FetchOutcome = Responded(ok: bool) | NetworkError(message: string)

  /** A response whose JSON body is still being read. */
  datatype BodyWait = BodyWait(fetch: DirFetch, ok: bool)

  /** What `await response.json()` gave for a listing request. */
  datatype ListingBody =
    | Parsed(path: string, entries: seq<Entry>, error: Option<string>)
    | Malformed(message: string)

  /** A listing `navigateTo` received: the server's path and its entries. */
  datatype Listed = Listed(path: string, entries: seq<Entry>)

  datatype Key = ArrowDown | ArrowUp | ArrowRight | ArrowLeft | Enter | Escape | OtherKey

  /** The `selectEntry` call a key press makes, if any. */
  datatype KeyOutcome =
    | Done
    | Open(colIndex: nat, entry: Entry)
      /** `selectEntry(...)` whose `.then` then enters the next column (EnterNextColumn). */
    | OpenThenEnter(colIndex: nat, entry: Entry)
      /** The handler read `.name` of a row that is not there and stopped on the TypeError. */
    | Aborted

  /** One `/api/move` request. */
  datatype Move = Move(src: string, dest: string)

  function Min(a: int, b: int): int { if a < b then a else b }
  function Max(a: int, b: int): int { if a < b then b else a }

  /** `cols.slice(0, n)`. */
  function Slice(cols: seq<Column>, n: nat): (r: seq<Column>)
    ensures |r| == Min(n, |cols|) && r == cols[..|r|]
  {
    cols[..Min(n, |cols|)]
  }

  /** Column ids are below the id counter and pairwise distinct; selections have no repeats. */
  ghost predicate WellFormed(cols: seq<Column>, nextId: nat) {
    && (forall i :: 0 <= i < |cols| ==> cols[i].id < nextId)
    && (forall i, j :: 0 <= i < j < |cols| ==> cols[i].id != cols[j].id)
    && (forall i :: 0 <= i < |cols| ==> NoDup(cols[i].selected))
  }

  lemma {:induction false} PushFresh(cols: seq<Column>, n: nat, c: Column, nextId: nat)
    requires WellFormed(cols, nextId) && c.id == nextId && NoDup(c.selected)
    ensures WellFormed(Slice(cols, n) + [c], nextId + 1)
  {
  }

  lemma {:induction false} PushAllFresh(cols: seq<Column>, added: seq<Column>, nextId: nat)
    requires WellFormed(cols, nextId)
    requires forall i :: 0 <= i < |added| ==> added[i].id == nextId + i && added[i].selected == []
    ensures WellFormed(cols + added, nextId + |added|)
  {
  }

  lemma {:induction false} Replace(cols: seq<Column>, i: int, c: Column, nextId: nat)
    requires WellFormed(cols, nextId) && 0 <= i < |cols| && c.id == cols[i].id && NoDup(c.selected)
    ensures WellFormed(cols[i := c], nextId)
    ensures WellFormed(cols[..i] + [c], nextId)
  {
  }

  // ------------------------------------------------------------------ selection

  /** The keyboard's next row: the first row when there is no cursor, else one down, stopping at the last. */
  function NextIndex(cursor: int, n: int): int {
    if cursor < 0 then 0 else Min(cursor + 1, n - 1)
  }

  /** The keyboard's previous row: the last row when there is no cursor, else one up, stopping at the first. */
  function PrevIndex(cursor: int, n: int): int {
    if cursor < 0 then n - 1 else Max(cursor - 1, 0)
  }

  /** ArrowDown always lands on a row; ArrowUp does whenever the cursor is at most one past the end. */
  lemma {:induction false} KeyIndexInRange(cursor: int, n: int)
    requires n > 0
    ensures 0 <= NextIndex(cursor, n) < n
    ensures cursor <= n ==> 0 <= PrevIndex(cursor, n) < n
    ensures cursor >= 0 && cursor + 1 < n ==> NextIndex(cursor, n) == cursor + 1
    ensures 0 < cursor <= n ==> PrevIndex(cursor, n) == cursor - 1
  {
  }

  /** The other end of a shift-extension to row `t`: the column's anchor, or `t` itself when unset. */
  function ShiftAnchor(c: Column, t: int): int {
    if c.anchor >= 0 then c.anchor else t
  }

  /** The range loop of a shift-extension to row `t` reaches an index with no visible entry. */
  predicate ShiftThrows(c: Column, visible: seq<Entry>, t: int) {
    RangeThrows(visible, Min(ShiftAnchor(c, t), t), Max(ShiftAnchor(c, t), t))
  }

  /** A shift-extension to row `t`: the range from the anchor (or `t` itself when unset) to `t`, cursor on `t`. */
  function ShiftExtend(c: Column, visible: seq<Entry>, t: int): (r: Column)
    requires !ShiftThrows(c, visible, t)
    ensures r.id == c.id && r.kind == c.kind && r.anchor == c.anchor && r.cursor == t
  {
    var a := ShiftAnchor(c, t);
    c.(selected := RangeNames(visible, Min(a, t), Max(a, t)), cursor := t)
  }

  /**
   * What a shift-extension whose loop throws leaves: the selection was
   * already replaced by the names read before the missing row; anchor and
   * cursor are untouched.
   */
  function ShiftAborted(c: Column, visible: seq<Entry>, t: int): (r: Column)
    ensures r.id == c.id && r.kind == c.kind && r.anchor == c.anchor && r.cursor == c.cursor && NoDup(r.selected)
  {
    c.(selected := RangeRead(visible, Min(ShiftAnchor(c, t), t)))
  }

  /** The column after Shift+arrow to row `t`, whether or not the loop throws. */
  function ShiftMoved(c: Column, visible: seq<Entry>, t: int): Column {
    if ShiftThrows(c, visible, t) then ShiftAborted(c, visible, t) else ShiftExtend(c, visible, t)
  }

  /**
   * A Shift+arrow to a row that exists throws exactly when the anchor is set
   * past the visible entries; the names it keeps are then those from the
   * nearer end of the range to the last visible row.
   */
  lemma {:induction false} ShiftAbortedSpec(c: Column, visible: seq<Entry>, t: int)
    requires 0 <= t < |visible|
    ensures ShiftThrows(c, visible, t) <==> c.anchor >= |visible|
    ensures ShiftThrows(c, visible, t) ==>
      forall n :: n in ShiftAborted(c, visible, t).selected <==> exists i :: t <= i < |visible| && visible[i].name == n
  {
    RangeReadSpec(visible, Min(ShiftAnchor(c, t), t));
  }

  /** The clicked column after `selectEntry`'s selection update. */
  function Selected(c: Column, visible: seq<Entry>, entry: Entry, shift: bool): (r: Column)
    requires shift && c.anchor >= 0 ==> !ShiftThrows(c, visible, IndexOfName(visible, entry.name))
    ensures r.id == c.id && r.kind == c.kind && NoDup(r.selected)
  {
    var k := IndexOfName(visible, entry.name);
    if shift && c.anchor >= 0 then ShiftExtend(c, visible, k)
    else c.(selected := [entry.name], anchor := k, cursor := k)
  }

  /**
   * A plain click selects exactly the clicked name and puts anchor and cursor
   * on its visible row; a shift-click with an anchor selects exactly the names
   * on the rows between the anchor and the clicked row, moves the cursor there
   * and keeps the anchor.
   */
  lemma {:induction false} SelectedSpec(c: Column, visible: seq<Entry>, entry: Entry, shift: bool)
    requires shift && c.anchor >= 0 ==> !ShiftThrows(c, visible, IndexOfName(visible, entry.name))
    ensures !(shift && c.anchor >= 0) ==>
      Selected(c, visible, entry, shift).selected == [entry.name]
      && Selected(c, visible, entry, shift).anchor == IndexOfName(visible, entry.name)
      && Selected(c, visible, entry, shift).cursor == IndexOfName(visible, entry.name)
    ensures shift && c.anchor >= 0 ==>
      Selected(c, visible, entry, shift).anchor == c.anchor
      && Selected(c, visible, entry, shift).cursor == IndexOfName(visible, entry.name)
      && forall n :: n in Selected(c, visible, entry, shift).selected <==>
           exists i :: Min(c.anchor, IndexOfName(visible, entry.name)) <= i <= Max(c.anchor, IndexOfName(visible, entry.name))
                       && visible[i].name == n
  {
    if shift && c.anchor >= 0 {
      var k := IndexOfName(visible, entry.name);
      RangeNamesSpec(visible, Min(c.anchor, k), Max(c.anchor, k));
    }
  }

  /** The FileInfo column, and the preview column when the file is small enough, that selecting a file appends. */
  function FileColumns(id: nat, dir: string, entry: Entry): (r: seq<Column>)
    ensures |r| == (if entry.size <= MaxPreviewSize(entry.name) then 2 else 1)
    ensures r[0].id == id && r[0].kind.Info? && r[0].kind.info.path == JoinChild(dir, entry.name)
    ensures |r| == 2 ==> r[1].id == id + 1 && r[1].kind == PreviewPane(EmptyPreview(JoinChild(dir, entry.name), entry.name))
    ensures forall i :: 0 <= i < |r| ==> r[i].id == id + i && r[i].selected == [] && r[i].anchor == -1 && r[i].cursor == -1
  {
    var path := JoinChild(dir, entry.name);
    var info := Column(id, Info(FileInfo(entry.name, path, entry.size, entry.mode, entry.mtime, entry.isLink)), [], -1, -1);
    if entry.size <= MaxPreviewSize(entry.name) then
      [info, Column(id + 1, PreviewPane(EmptyPreview(path, entry.name)), [], -1, -1)]
    else [info]
  }

  /** The outcome of entering the column at `index` from the keyboard. */
  function EnterOutcome(index: nat, c: Column, visible: seq<Entry>): KeyOutcome {
    if |visible| > 0 && c.selected == [] then Open(index, visible[0]) else Done
  }

  /**
   * ArrowRight on the last column: the single selected name, found among the
   * visible entries, is opened again and then entered.
   */
  function ReopenOutcome(index: nat, c: Column, visible: seq<Entry>): (r: KeyOutcome)
    ensures r.OpenThenEnter? <==> |c.selected| == 1 && c.selected[0] in EntryNames(visible)
    ensures r.OpenThenEnter? ==> r.colIndex == index && r.entry in visible && r.entry.name == c.selected[0]
    ensures !r.OpenThenEnter? ==> r == Done
  {
    if |c.selected| == 1 && IndexOfName(visible, c.selected[0]) >= 0
    then OpenThenEnter(index, visible[IndexOfName(visible, c.selected[0])]) else Done
  }

  /**
   * The rows the key handler indexes exist: a shift-extension's anchor, the
   * row ArrowUp moves to, and the cursor row Enter renames.  Hiding dotfiles
   * or a refresh can shrink the visible list under a stale anchor or cursor.
   */
  predicate KeyInBounds(key: Key, shift: bool, c: Column, visible: seq<Entry>) {
    var n := |visible|;
    var at := CursorIndex(c, visible);
    n == 0 ||
    (&& (key == ArrowDown && shift ==> c.anchor < n)
     && (key == ArrowUp ==> at <= n && (shift ==> c.anchor < n))
     && (key == Enter && at >= 0 && |c.selected| == 1 ==> at < n))
  }

  /**
   * The key handler reads `.name` of a missing row: a shift loop running past
   * the visible entries, `selectEntry` given the `undefined` row above a
   * cursor more than one past the end, or a rename of a cursor row that is gone.
   */
  predicate KeyThrows(key: Key, shift: bool, c: Column, visible: seq<Entry>) {
    var n := |visible|;
    var at := CursorIndex(c, visible);
    match key
    case ArrowDown => shift && ShiftThrows(c, visible, NextIndex(at, n))
    case ArrowUp => if shift then ShiftThrows(c, visible, PrevIndex(at, n)) else PrevIndex(at, n) >= n
    case Enter => at >= 0 && |c.selected| == 1 && at >= n
    case _ => false
  }

  /** Over a non-empty list the handler throws exactly when a row it indexes is out of bounds. */
  lemma {:induction false} KeyThrowsIffOutOfBounds(key: Key, shift: bool, c: Column, visible: seq<Entry>)
    requires |visible| > 0
    ensures KeyThrows(key, shift, c, visible) <==> !KeyInBounds(key, shift, c, visible)
  {
    var n := |visible|;
    var at := CursorIndex(c, visible);
    KeyIndexInRange(at, n);
    if key == ArrowDown && shift {
      ShiftAbortedSpec(c, visible, NextIndex(at, n));
    }
  }

  class Browser {
    var columns: seq<Column>
    var focused: int
    var generation: nat
    var nextId: nat
    var renaming: Option<RenameTarget>
    var showHidden: bool
    var sortMode: SortMode
    var sortAsc: bool

    ghost predicate Valid()
      reads this
    {
      WellFormed(columns, nextId)
    }

    /** The initial state: no columns, name order ascending, hidden files hidden. */
    constructor ()
      ensures Valid() && columns == [] && focused == 0 && generation == 0 && renaming.None?
      ensures !showHidden && sortMode == ByName && sortAsc
    {
      columns := [];
      focused := 0;
      generation := 0;
      nextId := 0;
      renaming := None;
      showHidden := false;
      sortMode := ByName;
      sortAsc := true;
    }

    /** `getVisibleEntries(state.columns[i])`. */
    function Visible(i: int): seq<Entry>
      reads this
      requires 0 <= i < |columns|
    {
      VisibleEntries(columns[i], showHidden, sortMode, sortAsc)
    }

    /**
     * The synchronous part of `selectEntry`: a new generation, the selection
     * update, truncation after the clicked column and, for a file, the
     * FileInfo and preview columns.  A folder's listing is requested and
     * arrives through ResolveDirFetch; a preview through CompletePreview.
     * A shift-click whose range loop meets a missing row (the anchor past
     * the visible entries, or the entry not among them) stops there with
     * `aborted`: the generation has moved on and the clicked column holds
     * the names read so far; nothing else changes.
     */
    method SelectEntry(colIndex: nat, entry: Entry, shift: bool) returns (fetch: Option<DirFetch>, preview: Option<string>, aborted: bool)
      requires Valid()
      requires colIndex < |columns| && columns[colIndex].kind.Listing?
      modifies this
      ensures Valid()
      ensures generation == old(generation) + 1
      ensures renaming == old(renaming) && showHidden == old(showHidden) && sortMode == old(sortMode) && sortAsc == old(sortAsc)
      ensures aborted <==>
        shift && old(columns[colIndex].anchor) >= 0
        && ShiftThrows(old(columns[colIndex]), old(Visible(colIndex)), IndexOfName(old(Visible(colIndex)), entry.name))
      ensures aborted ==>
        && columns == old(columns)[colIndex := ShiftAborted(old(columns[colIndex]), old(Visible(colIndex)), IndexOfName(old(Visible(colIndex)), entry.name))]
        && focused == old(focused) && nextId == old(nextId) && fetch.None? && preview.None?
      ensures !aborted ==> focused == colIndex
      ensures !aborted && entry.isDir ==>
        && columns == old(columns[..colIndex]) + [Selected(old(columns[colIndex]), old(Visible(colIndex)), entry, shift)]
        && nextId == old(nextId) && preview.None?
        && fetch == Some(DirFetch(generation, colIndex, JoinChild(old(columns[colIndex].kind.path), entry.name)))
      ensures !aborted && !entry.isDir ==>
        && columns == old(columns[..colIndex]) + [Selected(old(columns[colIndex]), old(Visible(colIndex)), entry, shift)]
                      + FileColumns(old(nextId), old(columns[colIndex].kind.path), entry)
        && nextId == old(nextId) + |FileColumns(old(nextId), old(columns[colIndex].kind.path), entry)|
        && fetch.None?
        && preview == if entry.size <= MaxPreviewSize(entry.name) then Some(JoinChild(old(columns[colIndex].kind.path), entry.name)) else None
    {
      var dir := columns[colIndex].kind.path;
      var c, threw := SelectNow(columns[colIndex], Visible(colIndex), entry, shift);
      Replace(columns, colIndex, c, nextId);
      if threw {
        columns, generation := columns[colIndex := c], generation + 1;
        return None, None, true;
      }
      aborted := false;
      Reselect(colIndex, c);
      if entry.isDir {
        fetch, preview := Some(DirFetch(generation, colIndex, JoinChild(dir, entry.name))), None;
      } else {
        var added := FileColumns(nextId, dir, entry);
        AppendColumns(added);
        fetch := None;
        preview := if |added| == 2 then Some(JoinChild(dir, entry.name)) else None;
      }
    }

    /**
     * The first steps of `selectEntry` once the selection is updated: a new
     * generation, the clicked column replaced by `c`, the columns after it
     * closed, focus on it.
     */
    method Reselect(colIndex: nat, c: Column)
      requires Valid()
      requires colIndex < |columns| && WellFormed(columns[..colIndex] + [c], nextId)
      modifies this
      ensures Valid()
      ensures generation == old(generation) + 1 && focused == colIndex && nextId == old(nextId)
      ensures renaming == old(renaming) && showHidden == old(showHidden) && sortMode == old(sortMode) && sortAsc == old(sortAsc)
      ensures columns == old(columns[..colIndex]) + [c]
    {
      columns, generation, focused := columns[..colIndex] + [c], generation + 1, colIndex;
    }

    /** Push fresh columns, numbered from the id counter, onto the stack. */
    method AppendColumns(added: seq<Column>)
      requires Valid()
      requires forall i :: 0 <= i < |added| ==> added[i].id == nextId + i && added[i].selected == []
      modifies this
      ensures Valid()
      ensures columns == old(columns) + added && nextId == old(nextId) + |added|
      ensures generation == old(generation) && focused == old(focused) && renaming == old(renaming)
      ensures showHidden == old(showHidden) && sortMode == old(sortMode) && sortAsc == old(sortAsc)
    {
      PushAllFresh(columns, added, nextId);
      columns, nextId := columns + added, nextId + |added|;
    }

    /**
     * The directory fetch has settled.  A fetch from an older generation is
     * dropped; a response goes on to have its body read (ApplyListingBody); a
     * network failure replaces everything after the clicked column with an
     * error column for the folder.
     */
    method ResolveDirFetch(f: DirFetch, outcome: FetchOutcome) returns (wait: Option<BodyWait>)
      requires Valid()
      modifies this
      ensures Valid()
      ensures f.gen != old(generation) ==> unchanged(this) && wait.None?
      ensures f.gen == old(generation) && outcome.Responded? ==> unchanged(this) && wait == Some(BodyWait(f, outcome.ok))
      ensures f.gen == old(generation) && outcome.NetworkError? ==>
        && wait.None?
        && columns == Slice(old(columns), f.colIndex + 1) + [ErrorColumn(old(nextId), f.path, Some(outcome.message))]
        && nextId == old(nextId) + 1
        && focused == f.colIndex && generation == old(generation) && renaming == old(renaming)
        && showHidden == old(showHidden) && sortMode == old(sortMode) && sortAsc == old(sortAsc)
    {
      if f.gen != generation {
        return None;
      }
      match outcome
      case Responded(ok) =>
        wait := Some(BodyWait(f, ok));
      case NetworkError(message) =>
        PushError(f, Some(message));
        focused := f.colIndex;
        wait := None;
    }

    /** Replace everything after the fetch's column with an error column for its folder. */
    method PushError(f: DirFetch, error: Option<string>)
      requires Valid()
      modifies this
      ensures Valid()
      ensures columns == Slice(old(columns), f.colIndex + 1) + [ErrorColumn(old(nextId), f.path, error)]
      ensures nextId == old(nextId) + 1
      ensures focused == old(focused) && generation == old(generation) && renaming == old(renaming)
      ensures showHidden == old(showHidden) && sortMode == old(sortMode) && sortAsc == old(sortAsc)
    {
      PushFresh(columns, f.colIndex + 1, ErrorColumn(nextId, f.path, error), nextId);
      columns := Slice(columns, f.colIndex + 1) + [ErrorColumn(nextId, f.path, error)];
      nextId := nextId + 1;
    }

    /**
     * The listing's body has been read.  The generation is not checked again
     * here: a body read while a newer selection was made still lands.  Only a
     * body that fails to parse goes through the stale check of the `catch`.
     * Every column that lands puts the focus back on the clicked column.
     */
    method ApplyListingBody(w: BodyWait, body: ListingBody) returns (sizes: Option<SizesRequest>)
      requires Valid()
      modifies this
      ensures Valid()
      ensures generation == old(generation) && renaming == old(renaming)
      ensures showHidden == old(showHidden) && sortMode == old(sortMode) && sortAsc == old(sortAsc)
      ensures body.Malformed? && w.fetch.gen != old(generation) ==> unchanged(this) && sizes.None?
      ensures !(body.Malformed? && w.fetch.gen != old(generation)) ==> focused == w.fetch.colIndex
      ensures body.Malformed? && w.fetch.gen == old(generation) ==>
        && columns == Slice(old(columns), w.fetch.colIndex + 1) + [ErrorColumn(old(nextId), w.fetch.path, Some(body.message))]
        && nextId == old(nextId) + 1 && sizes.None?
      ensures body.Parsed? && !w.ok ==>
        && columns == Slice(old(columns), w.fetch.colIndex + 1) + [ErrorColumn(old(nextId), w.fetch.path, body.error)]
        && nextId == old(nextId) + 1 && sizes.None?
      ensures body.Parsed? && w.ok ==>
        && columns == Slice(old(columns), w.fetch.colIndex + 1) + [SizesStarted(ListingColumn(old(nextId), body.path, body.entries))]
        && nextId == old(nextId) + 1
        && sizes == SizesQuery(|columns| - 1, ListingColumn(old(nextId), body.path, body.entries))
    {
      match body
      case Malformed(message) =>
        if w.fetch.gen != generation {
          return None;
        }
        PushError(w.fetch, Some(message));
        focused := w.fetch.colIndex;
        sizes := None;
      case Parsed(path, entries, error) =>
        if w.ok {
          var c := ListingColumn(nextId, path, entries);
          PushFresh(columns, w.fetch.colIndex + 1, c, nextId);
          columns := Slice(columns, w.fetch.colIndex + 1) + [c];
          nextId := nextId + 1;
          sizes := BeginDirSizes(|columns| - 1);
        } else {
          PushError(w.fetch, error);
          sizes := None;
        }
        focused := w.fetch.colIndex;
    }

    /**
     * `navigateTo` once its listing arrived: the stack becomes that one
     * directory, focused, and its folder sizes are asked for.  A failed
     * listing only notifies.  The generation is left alone.
     */
    method CompleteNavigate(reply: Option<Listed>) returns (sizes: Option<SizesRequest>)
      requires Valid()
      modifies this
      ensures Valid()
      ensures generation == old(generation) && renaming == old(renaming)
      ensures showHidden == old(showHidden) && sortMode == old(sortMode) && sortAsc == old(sortAsc)
      ensures reply.None? ==> unchanged(this) && sizes.None?
      ensures reply.Some? ==>
        && columns == [SizesStarted(ListingColumn(old(nextId), reply.value.path, reply.value.entries))]
        && focused == 0 && nextId == old(nextId) + 1
        && sizes == SizesQuery(0, ListingColumn(old(nextId), reply.value.path, reply.value.entries))
    {
      if reply.None? {
        return None;
      }
      columns := [ListingColumn(nextId, reply.value.path, reply.value.entries)];
      nextId := nextId + 1;
      focused := 0;
      sizes := BeginDirSizes(0);
    }

    /**
     * A breadcrumb click: when a column shows that path, the stack is cut
     * after it and its selection cleared; otherwise the path is loaded afresh
     * (the returned path is handed to navigateTo).
     */
    method NavigateToBreadcrumb(path: string) returns (reload: Option<string>)
      requires Valid()
      modifies this
      ensures Valid()
      ensures generation == old(generation) && nextId == old(nextId) && renaming == old(renaming)
      ensures showHidden == old(showHidden) && sortMode == old(sortMode) && sortAsc == old(sortAsc)
      ensures FindPathColumn(old(columns), path) >= 0 ==>
        && columns == old(columns[..FindPathColumn(columns, path)]) + [Cleared(old(columns[FindPathColumn(columns, path)]))]
        && focused == FindPathColumn(old(columns), path) && reload.None?
      ensures FindPathColumn(old(columns), path) < 0 ==> unchanged(this) && reload == Some(path)
    {
      var i := FindPathColumn(columns, path);
      if i < 0 {
        return Some(path);
      }
      Replace(columns, i, Cleared(columns[i]), nextId);
      columns := columns[..i] + [Cleared(columns[i])];
      focused := i;
      reload := None;
    }

    /** A click on a column's blank space: its selection is cleared and everything after it closed. */
    method Deselect(colIndex: nat)
      requires Valid() && colIndex < |columns|
      modifies this
      ensures Valid()
      ensures columns == old(columns[..colIndex]) + [Cleared(old(columns[colIndex]))]
      ensures focused == colIndex
      ensures generation == old(generation) && nextId == old(nextId) && renaming == old(renaming)
      ensures showHidden == old(showHidden) && sortMode == old(sortMode) && sortAsc == old(sortAsc)
    {
      Replace(columns, colIndex, Cleared(columns[colIndex]), nextId);
      columns := columns[..colIndex] + [Cleared(columns[colIndex])];
      focused := colIndex;
    }

    /**
     * `fetchDirSizes(colIndex)` up to its request: a directory column with a
     * path, sizes not yet asked for and some folders is marked as asked for,
     * and the request names its folders and remembers the column.
     */
    method BeginDirSizes(colIndex: int) returns (request: Option<SizesRequest>)
      requires Valid()
      modifies this
      ensures Valid()
      ensures 0 <= colIndex < |old(columns)| ==>
        columns == old(columns)[colIndex := SizesStarted(old(columns[colIndex]))]
        && request == SizesQuery(colIndex, old(columns[colIndex]))
      ensures !(0 <= colIndex < |old(columns)|) ==> columns == old(columns) && request.None?
      ensures focused == old(focused) && generation == old(generation) && nextId == old(nextId) && renaming == old(renaming)
      ensures showHidden == old(showHidden) && sortMode == old(sortMode) && sortAsc == old(sortAsc)
    {
      if !(0 <= colIndex < |columns|) {
        return None;
      }
      request := SizesQuery(colIndex, columns[colIndex]);
      Replace(columns, colIndex, SizesStarted(columns[colIndex]), nextId);
      columns := columns[colIndex := SizesStarted(columns[colIndex])];
    }

    /**
     * The size reply arrived.  It is applied only when the column that asked is
     * still at its index (the same column, not a newer one); then each folder
     * entry named in the reply takes its size.
     */
    method CompleteDirSizes(request: SizesRequest, reply: Option<map<string, int>>)
      requires Valid()
      modifies this
      ensures Valid()
      ensures reply.Some? && request.colIndex < |old(columns)| && old(columns[request.colIndex]).id == request.columnId
              && old(columns[request.colIndex]).kind.Listing? ==>
        columns == old(columns)[request.colIndex := old(columns[request.colIndex]).(kind :=
          old(columns[request.colIndex]).kind.(entries := WithDirSizes(old(columns[request.colIndex]).kind.entries, reply.value)))]
      ensures (!(reply.Some? && request.colIndex < |old(columns)| && old(columns[request.colIndex]).id == request.columnId
                 && old(columns[request.colIndex]).kind.Listing?)) ==> columns == old(columns)
      ensures focused == old(focused) && generation == old(generation) && nextId == old(nextId) && renaming == old(renaming)
      ensures showHidden == old(showHidden) && sortMode == old(sortMode) && sortAsc == old(sortAsc)
    {
      if reply.None? || request.colIndex >= |columns| || columns[request.colIndex].id != request.columnId {
        return;
      }
      var c := columns[request.colIndex];
      if !c.kind.Listing? {
        return;
      }
      var entries := c.kind.entries;
      var updated: seq<Entry> := [];
      var i := 0;
      while i < |entries|
        invariant 0 <= i <= |entries|
        invariant |updated| == i && forall j :: 0 <= j < i ==> updated[j] == WithDirSize(entries[j], reply.value)
      {
        var e := entries[i];
        if e.isDir && e.name in reply.value {
          e := e.(dirSize := Some(reply.value[e.name]));
        }
        updated := updated + [e];
        i := i + 1;
      }
      assert updated == WithDirSizes(entries, reply.value);
      var d := c.(kind := c.kind.(entries := updated));
      Replace(columns, request.colIndex, d, nextId);
      columns := columns[request.colIndex := d];
    }

    /**
     * A preview reply arrived.  The first preview column for the path, if any,
     * takes the reply's fields; a failed request or body changes nothing.
     */
    method CompletePreview(path: string, reply: Option<PreviewJson>)
      requires Valid()
      modifies this
      ensures Valid()
      ensures reply.Some? && FindPreview(old(columns), path) >= 0 ==>
        columns == old(columns)[FindPreview(old(columns), path) := old(columns[FindPreview(columns, path)]).(kind :=
          PreviewPane(ApplyPreviewJson(old(columns[FindPreview(columns, path)]).kind.preview, reply.value)))]
      ensures !(reply.Some? && FindPreview(old(columns), path) >= 0) ==> columns == old(columns)
      ensures focused == old(focused) && generation == old(generation) && nextId == old(nextId) && renaming == old(renaming)
      ensures showHidden == old(showHidden) && sortMode == old(sortMode) && sortAsc == old(sortAsc)
    {
      if reply.None? {
        return;
      }
      var i := FindPreview(columns, path);
      if i < 0 {
        return;
      }
      var c := columns[i].(kind := PreviewPane(ApplyPreviewJson(columns[i].kind.preview, reply.value)));
      Replace(columns, i, c, nextId);
      columns := columns[i := c];
    }

    /** The part of the keyboard handler that enters the column after `fc`, also run after a re-open. */
    method EnterNextColumn(fc: int) returns (outcome: KeyOutcome)
      requires Valid()
      modifies this
      ensures Valid()
      ensures columns == old(columns) && generation == old(generation) && nextId == old(nextId) && renaming == old(renaming)
      ensures showHidden == old(showHidden) && sortMode == old(sortMode) && sortAsc == old(sortAsc)
      ensures 0 <= fc + 1 < |columns| ==> focused == fc + 1 && outcome == EnterOutcome(fc + 1, columns[fc + 1], Visible(fc + 1))
      ensures !(0 <= fc + 1 < |columns|) ==> focused == old(focused) && outcome == Done
    {
      if 0 <= fc + 1 < |columns| {
        focused := fc + 1;
        outcome := EnterOutcome(fc + 1, columns[fc + 1], Visible(fc + 1));
      } else {
        outcome := Done;
      }
    }

    /** The handler passes over the key: no columns, no focused column, or nothing visible and not ArrowLeft. */
    predicate Ignores(key: Key)
      reads this
    {
      |columns| == 0 || !(0 <= focused < |columns|) || (|Visible(focused)| == 0 && key != ArrowLeft)
    }

    /**
     * `handleKeyNavigation`.  While a rename is open only Escape acts.  The
     * arrows move the cursor (and extend the range with Shift, or open the
     * row without); ArrowRight enters the next column or re-opens the single
     * selection; ArrowLeft closes the focused column itself; Escape clears the
     * selection and closes what follows; Enter starts a rename.
     */
    method HandleKey(key: Key, shift: bool) returns (outcome: KeyOutcome)
      requires Valid()
      modifies this
      ensures Valid()
      ensures nextId == old(nextId)
      ensures showHidden == old(showHidden) && sortMode == old(sortMode) && sortAsc == old(sortAsc)
      ensures old(Ignores(key)) ==> unchanged(this) && outcome == Done
      ensures !old(Ignores(key)) && old(renaming).Some? ==>
        && columns == old(columns) && focused == old(focused) && generation == old(generation) && outcome == Done
        && renaming == (if key == Escape then None else old(renaming))
      ensures !old(Ignores(key)) && old(renaming).None? ==>
        (outcome.Aborted? <==> old(KeyThrows(key, shift, columns[focused], Visible(focused))))
      ensures !old(Ignores(key)) && old(renaming).None? ==>
        var fc := old(focused);
        var c := old(columns[focused]);
        var visible := old(Visible(focused));
        var at := CursorIndex(c, visible);
        && (key == ArrowDown && shift ==>
              columns == old(columns)[fc := ShiftMoved(c, visible, NextIndex(at, |visible|))]
              && focused == fc && renaming.None? && generation == old(generation))
        && (key == ArrowDown && !shift ==>
              unchanged(this) && outcome == Open(fc, visible[NextIndex(at, |visible|)]))
        && (key == ArrowUp && shift ==>
              columns == old(columns)[fc := ShiftMoved(c, visible, PrevIndex(at, |visible|))]
              && focused == fc && renaming.None? && generation == old(generation))
        && (key == ArrowUp && !shift && PrevIndex(at, |visible|) < |visible| ==>
              unchanged(this) && outcome == Open(fc, visible[PrevIndex(at, |visible|)]))
        && (key == ArrowUp && !shift && PrevIndex(at, |visible|) >= |visible| ==>
              columns == old(columns) && focused == fc && renaming.None? && generation == old(generation) + 1)
        && (key == ArrowRight && fc + 1 < |old(columns)| ==>
              columns == old(columns) && renaming.None? && focused == fc + 1 && generation == old(generation)
              && outcome == EnterOutcome(fc + 1, old(columns[fc + 1]), old(Visible(fc + 1))))
        && (key == ArrowRight && fc + 1 >= |old(columns)| ==>
              unchanged(this)
              && outcome == ReopenOutcome(fc, c, visible))
        && (key == Enter ==>
              columns == old(columns) && focused == fc && generation == old(generation)
              && renaming == (if at >= 0 && |c.selected| == 1 && at < |visible| then Some(RenameTarget(fc, visible[at].name)) else None))
        && (key == ArrowLeft ==>
              renaming.None? && outcome == Done && generation == old(generation)
              && (fc > 0 ==> columns == old(columns[..focused]) && focused == fc - 1)
              && (fc <= 0 ==> columns == old(columns) && focused == fc))
        && (key == Escape ==>
              columns == old(columns[..focused]) + [Cleared(c)] && focused == fc
              && renaming.None? && outcome == Done && generation == old(generation))
        && (key == OtherKey ==> unchanged(this) && outcome == Done)
    {
      if Ignores(key) {
        return Done;
      }
      if renaming.Some? {
        if key == Escape {
          renaming := None;
        }
        return Done;
      }
      outcome := NavigateKey(key, shift);
    }

    /** The key handler once it acts and no rename is open. */
    method NavigateKey(key: Key, shift: bool) returns (outcome: KeyOutcome)
      requires Valid() && !Ignores(key) && renaming.None?
      modifies this
      ensures Valid()
      ensures nextId == old(nextId)
      ensures showHidden == old(showHidden) && sortMode == old(sortMode) && sortAsc == old(sortAsc)
      ensures outcome.Aborted? <==> old(KeyThrows(key, shift, columns[focused], Visible(focused)))
      ensures
        var fc := old(focused);
        var c := old(columns[focused]);
        var visible := old(Visible(focused));
        var at := CursorIndex(c, visible);
        && (key == ArrowDown && shift ==>
              columns == old(columns)[fc := ShiftMoved(c, visible, NextIndex(at, |visible|))]
              && focused == fc && renaming.None? && generation == old(generation))
        && (key == ArrowDown && !shift ==>
              unchanged(this) && outcome == Open(fc, visible[NextIndex(at, |visible|)]))
        && (key == ArrowUp && shift ==>
              columns == old(columns)[fc := ShiftMoved(c, visible, PrevIndex(at, |visible|))]
              && focused == fc && renaming.None? && generation == old(generation))
        && (key == ArrowUp && !shift && PrevIndex(at, |visible|) < |visible| ==>
              unchanged(this) && outcome == Open(fc, visible[PrevIndex(at, |visible|)]))
        && (key == ArrowUp && !shift && PrevIndex(at, |visible|) >= |visible| ==>
              columns == old(columns) && focused == fc && renaming.None? && generation == old(generation) + 1)
        && (key == ArrowRight && fc + 1 < |old(columns)| ==>
              columns == old(columns) && renaming.None? && focused == fc + 1 && generation == old(generation)
              && outcome == EnterOutcome(fc + 1, old(columns[fc + 1]), old(Visible(fc + 1))))
        && (key == ArrowRight && fc + 1 >= |old(columns)| ==>
              unchanged(this)
              && outcome == ReopenOutcome(fc, c, visible))
        && (key == Enter ==>
              columns == old(columns) && focused == fc && generation == old(generation)
              && renaming == (if at >= 0 && |c.selected| == 1 && at < |visible| then Some(RenameTarget(fc, visible[at].name)) else None))
        && (key == ArrowLeft ==>
              renaming.None? && outcome == Done && generation == old(generation)
              && (fc > 0 ==> columns == old(columns[..focused]) && focused == fc - 1)
              && (fc <= 0 ==> columns == old(columns) && focused == fc))
        && (key == Escape ==>
              columns == old(columns[..focused]) + [Cleared(c)] && focused == fc
              && renaming.None? && outcome == Done && generation == old(generation))
        && (key == OtherKey ==> unchanged(this) && outcome == Done)
    {
      if key == ArrowDown || key == ArrowUp {
        outcome := VerticalKey(key, shift);
      } else if key == ArrowRight {
        outcome := RightKey(key, shift);
      } else {
        outcome := ColumnKey(key, shift);
      }
    }

    /**
     * ArrowDown and ArrowUp: move the cursor, extending the range with Shift.
     * A row past the visible entries, reached from a stale anchor or cursor,
     * aborts the handler.
     */
    method VerticalKey(key: Key, shift: bool) returns (outcome: KeyOutcome)
      requires Valid() && !Ignores(key) && renaming.None?
      requires key == ArrowDown || key == ArrowUp
      modifies this
      ensures Valid()
      ensures nextId == old(nextId)
      ensures showHidden == old(showHidden) && sortMode == old(sortMode) && sortAsc == old(sortAsc)
      ensures outcome.Aborted? <==> old(KeyThrows(key, shift, columns[focused], Visible(focused)))
      ensures
        var fc := old(focused);
        var c := old(columns[focused]);
        var visible := old(Visible(focused));
        var at := CursorIndex(c, visible);
        (key == ArrowDown && shift ==>
              columns == old(columns)[fc := ShiftMoved(c, visible, NextIndex(at, |visible|))]
              && focused == fc && renaming.None? && generation == old(generation))
        && (key == ArrowDown && !shift ==>
              unchanged(this) && outcome == Open(fc, visible[NextIndex(at, |visible|)]))
        && (key == ArrowUp && shift ==>
              columns == old(columns)[fc := ShiftMoved(c, visible, PrevIndex(at, |visible|))]
              && focused == fc && renaming.None? && generation == old(generation))
        && (key == ArrowUp && !shift && PrevIndex(at, |visible|) < |visible| ==>
              unchanged(this) && outcome == Open(fc, visible[PrevIndex(at, |visible|)]))
        && (key == ArrowUp && !shift && PrevIndex(at, |visible|) >= |visible| ==>
              columns == old(columns) && focused == fc && renaming.None? && generation == old(generation) + 1)
    {
      var visible := Visible(focused);
      var at := CursorIndex(columns[focused], visible);
      KeyIndexInRange(at, |visible|);
      if key == ArrowDown {
        outcome := MoveCursor(NextIndex(at, |visible|), shift);
      } else {
        outcome := MoveCursor(PrevIndex(at, |visible|), shift);
      }
    }

    /** ArrowRight: enter the next column, or re-open the single selection on the last one. */
    method RightKey(key: Key, shift: bool) returns (outcome: KeyOutcome)
      requires Valid() && !Ignores(key) && renaming.None?
      requires key == ArrowRight
      modifies this
      ensures Valid()
      ensures generation == old(generation) && nextId == old(nextId)
      ensures outcome.Done? || outcome.Open? || outcome.OpenThenEnter?
      ensures showHidden == old(showHidden) && sortMode == old(sortMode) && sortAsc == old(sortAsc)
      ensures
        var fc := old(focused);
        var c := old(columns[focused]);
        var visible := old(Visible(focused));
        var at := CursorIndex(c, visible);
        (key == ArrowRight && fc + 1 < |old(columns)| ==>
              columns == old(columns) && renaming.None? && focused == fc + 1 && generation == old(generation)
              && outcome == EnterOutcome(fc + 1, old(columns[fc + 1]), old(Visible(fc + 1))))
        && (key == ArrowRight && fc + 1 >= |old(columns)| ==>
              unchanged(this)
              && outcome == ReopenOutcome(fc, c, visible))
    {
      var fc := focused;
      if fc + 1 < |columns| {
        outcome := EnterNextColumn(fc);
      } else {
        outcome := ReopenOutcome(fc, columns[fc], Visible(fc));
      }
    }

    /** Enter, ArrowLeft, Escape and the keys the handler does not bind; Enter on a vanished cursor row aborts. */
    method ColumnKey(key: Key, shift: bool) returns (outcome: KeyOutcome)
      requires Valid() && !Ignores(key) && renaming.None?
      requires key != ArrowDown && key != ArrowUp && key != ArrowRight
      modifies this
      ensures Valid()
      ensures nextId == old(nextId)
      ensures showHidden == old(showHidden) && sortMode == old(sortMode) && sortAsc == old(sortAsc)
      ensures outcome.Aborted? <==> old(KeyThrows(key, shift, columns[focused], Visible(focused)))
      ensures
        var fc := old(focused);
        var c := old(columns[focused]);
        var visible := old(Visible(focused));
        var at := CursorIndex(c, visible);
        (key == Enter ==>
              columns == old(columns) && focused == fc && generation == old(generation)
              && renaming == (if at >= 0 && |c.selected| == 1 && at < |visible| then Some(RenameTarget(fc, visible[at].name)) else None))
        && (key == ArrowLeft ==>
              renaming.None? && outcome == Done && generation == old(generation)
              && (fc > 0 ==> columns == old(columns[..focused]) && focused == fc - 1)
              && (fc <= 0 ==> columns == old(columns) && focused == fc))
        && (key == Escape ==>
              columns == old(columns[..focused]) + [Cleared(c)] && focused == fc
              && renaming.None? && outcome == Done && generation == old(generation))
        && (key == OtherKey ==> unchanged(this) && outcome == Done)
    {
      var fc := focused;
      var c := columns[fc];
      var visible := Visible(fc);
      var at := CursorIndex(c, visible);
      match key
      case Enter =>
        outcome := Done;
        if at >= 0 && |c.selected| == 1 {
          if at < |visible| {
            StartRename(fc, visible[at].name);
          } else {
            outcome := Aborted;
          }
        }
      case ArrowLeft =>
        if fc > 0 {
          CloseFocused();
        }
        outcome := Done;
      case Escape =>
        ClearFocused();
        outcome := Done;
      case OtherKey =>
        outcome := Done;
    }

    /** ArrowLeft past the first column: the focused column closes and focus moves one column left. */
    method CloseFocused()
      requires Valid() && 0 < focused < |columns|
      modifies this
      ensures Valid()
      ensures columns == old(columns[..focused]) && focused == old(focused) - 1
      ensures generation == old(generation) && nextId == old(nextId) && renaming == old(renaming)
      ensures showHidden == old(showHidden) && sortMode == old(sortMode) && sortAsc == old(sortAsc)
    {
      columns := columns[..focused];
      focused := focused - 1;
    }

    /** Escape: the focused column loses its selection, anchor and cursor, and the columns after it close. */
    method ClearFocused()
      requires Valid() && 0 <= focused < |columns|
      modifies this
      ensures Valid()
      ensures columns == old(columns[..focused]) + [Cleared(old(columns[focused]))] && focused == old(focused)
      ensures generation == old(generation) && nextId == old(nextId) && renaming == old(renaming)
      ensures showHidden == old(showHidden) && sortMode == old(sortMode) && sortAsc == old(sortAsc)
    {
      var c := Cleared(columns[focused]);
      Replace(columns, focused, c, nextId);
      columns := columns[..focused] + [c];
    }

    /** An arrow key moving the cursor of the focused column to row `t`: extend with Shift, open without. */
    method MoveCursor(t: int, shift: bool) returns (outcome: KeyOutcome)
      requires Valid() && 0 <= focused < |columns| && 0 <= t
      modifies this
      ensures Valid()
      ensures focused == old(focused) && nextId == old(nextId) && renaming == old(renaming)
      ensures showHidden == old(showHidden) && sortMode == old(sortMode) && sortAsc == old(sortAsc)
      ensures shift ==>
        && columns == old(columns)[focused := ShiftMoved(old(columns[focused]), old(Visible(focused)), t)]
        && generation == old(generation)
        && outcome == if ShiftThrows(old(columns[focused]), old(Visible(focused)), t) then Aborted else Done
      ensures !shift && t < |old(Visible(focused))| ==> unchanged(this) && outcome == Open(focused, old(Visible(focused))[t])
      ensures !shift && t >= |old(Visible(focused))| ==>
        columns == old(columns) && generation == old(generation) + 1 && outcome == Aborted
    {
      var visible := Visible(focused);
      if shift {
        var d, threw := ShiftExtendNow(columns[focused], visible, t);
        Replace(columns, focused, d, nextId);
        columns := columns[focused := d];
        outcome := if threw then Aborted else Done;
      } else if t < |visible| {
        outcome := Open(focused, visible[t]);
      } else {
        // `selectEntry(fc, undefined)` takes its generation, then throws.
        generation := generation + 1;
        outcome := Aborted;
      }
    }

    /** `startRename(colIndex, name)`. */
    method StartRename(colIndex: int, name: string)
      modifies this
      ensures renaming == Some(RenameTarget(colIndex, name))
      ensures columns == old(columns) && focused == old(focused) && generation == old(generation) && nextId == old(nextId)
      ensures showHidden == old(showHidden) && sortMode == old(sortMode) && sortAsc == old(sortAsc)
    {
      renaming := Some(RenameTarget(colIndex, name));
    }

    /** `cancelRename()`. */
    method CancelRename()
      modifies this
      ensures renaming.None?
      ensures columns == old(columns) && focused == old(focused) && generation == old(generation) && nextId == old(nextId)
      ensures showHidden == old(showHidden) && sortMode == old(sortMode) && sortAsc == old(sortAsc)
    {
      renaming := None;
    }

    /**
     * Enter in the rename box: the rename closes first; the typed text is
     * trimmed; no move is made when it is empty, unchanged, or the column has
     * no path; otherwise the old path moves to the new one in the same folder
     * (after which the caller refreshes the columns).
     */
    method CommitRename(colIndex: int, oldName: string, typed: string) returns (move: Option<Move>)
      modifies this
      ensures renaming.None?
      ensures columns == old(columns) && focused == old(focused) && generation == old(generation) && nextId == old(nextId)
      ensures showHidden == old(showHidden) && sortMode == old(sortMode) && sortAsc == old(sortAsc)
      ensures move.Some? <==>
        JsTrim(typed) != "" && JsTrim(typed) != oldName && 0 <= colIndex < |columns| && HasPath(columns[colIndex])
      ensures move.Some? ==>
        move.value == Move(JoinChild(columns[colIndex].kind.path, oldName), JoinChild(columns[colIndex].kind.path, JsTrim(typed)))
    {
      renaming := None;
      var newName := JsTrim(typed);
      if newName == "" || newName == oldName {
        return None;
      }
      if !(0 <= colIndex < |columns|) || !HasPath(columns[colIndex]) {
        return None;
      }
      var dir := columns[colIndex].kind.path;
      move := Some(Move(JoinChild(dir, oldName), JoinChild(dir, newName)));
    }

    /**
     * `refreshColumns`, given each column's listing reply (None when the
     * request failed or the column is not re-listed): directory columns with
     * a path take their new entries and drop vanished names from the
     * selection; then every such column forgets its folder sizes and asks for
     * them again.  Anchors and cursors are not touched.
     */
    method RefreshColumns(replies: seq<Option<seq<Entry>>>) returns (requests: seq<SizesRequest>)
      requires Valid() && |replies| == |columns|
      modifies this
      ensures Valid()
      ensures |columns| == |old(columns)|
      ensures forall i :: 0 <= i < |columns| ==> columns[i] == Resized(RefreshColumn(old(columns[i]), replies[i]))
      ensures requests == ResizeRequests(Refetched(old(columns), replies), 0)
      ensures focused == old(focused) && generation == old(generation) && nextId == old(nextId) && renaming == old(renaming)
      ensures showHidden == old(showHidden) && sortMode == old(sortMode) && sortAsc == old(sortAsc)
    {
      RefetchColumns(replies);
      requests := ResizeColumns();
    }

    /** `refreshColumns`' first loop: new entries for re-listed columns, selections pruned to them. */
    method RefetchColumns(replies: seq<Option<seq<Entry>>>)
      requires Valid() && |replies| == |columns|
      modifies this
      ensures Valid()
      ensures columns == Refetched(old(columns), replies)
      ensures focused == old(focused) && generation == old(generation) && nextId == old(nextId) && renaming == old(renaming)
      ensures showHidden == old(showHidden) && sortMode == old(sortMode) && sortAsc == old(sortAsc)
    {
      var i := 0;
      while i < |columns|
        invariant 0 <= i <= |columns| == |old(columns)|
        invariant WellFormed(columns, nextId)
        invariant forall j :: 0 <= j < i ==> columns[j] == RefreshColumn(old(columns[j]), replies[j])
        invariant forall j :: i <= j < |columns| ==> columns[j] == old(columns[j])
        invariant focused == old(focused) && generation == old(generation) && nextId == old(nextId) && renaming == old(renaming)
        invariant showHidden == old(showHidden) && sortMode == old(sortMode) && sortAsc == old(sortAsc)
      {
        var c := columns[i];
        if HasPath(c) && replies[i].Some? {
          var kept := PruneSelection(c.selected, EntryNames(replies[i].value));
          KeepListedSpec(c.selected, EntryNames(replies[i].value));
          var d := c.(kind := c.kind.(entries := replies[i].value), selected := kept);
          Replace(columns, i, d, nextId);
          columns := columns[i := d];
        }
        i := i + 1;
      }
    }

    /** `refreshColumns`' second loop: each directory column with a path asks for its folder sizes again. */
    method ResizeColumns() returns (requests: seq<SizesRequest>)
      requires Valid()
      modifies this
      ensures Valid()
      ensures |columns| == |old(columns)| && forall i :: 0 <= i < |columns| ==> columns[i] == Resized(old(columns[i]))
      ensures requests == ResizeRequests(old(columns), 0)
      ensures focused == old(focused) && generation == old(generation) && nextId == old(nextId) && renaming == old(renaming)
      ensures showHidden == old(showHidden) && sortMode == old(sortMode) && sortAsc == old(sortAsc)
    {
      ghost var before := columns;
      requests := [];
      var i := 0;
      while i < |columns|
        invariant 0 <= i <= |columns| == |before|
        invariant WellFormed(columns, nextId)
        invariant forall j :: 0 <= j < i ==> columns[j] == Resized(before[j])
        invariant forall j :: i <= j < |columns| ==> columns[j] == before[j]
        invariant requests + ResizeRequests(before, i) == ResizeRequests(before, 0)
        invariant focused == old(focused) && generation == old(generation) && nextId == old(nextId) && renaming == old(renaming)
        invariant showHidden == old(showHidden) && sortMode == old(sortMode) && sortAsc == old(sortAsc)
      {
        var q := ResizeQuery(i, columns[i]);
        ResizeRequestsStep(before, i, requests);
        ResizeAt(i);
        requests := requests + if q.Some? then [q.value] else [];
        i := i + 1;
      }
    }

    /** One step of that loop: column `i`, when it has a path, has its sizes marked unloaded and then requested. */
    method ResizeAt(i: nat)
      requires Valid() && i < |columns|
      modifies this
      ensures Valid()
      ensures columns == old(columns)[i := Resized(old(columns[i]))]
      ensures focused == old(focused) && generation == old(generation) && nextId == old(nextId) && renaming == old(renaming)
      ensures showHidden == old(showHidden) && sortMode == old(sortMode) && sortAsc == old(sortAsc)
    {
      var d := Resized(columns[i]);
      if HasPath(columns[i]) {
        Replace(columns, i, d, nextId);
        columns := columns[i := d];
      } else {
        assert columns[i := d] == columns;
      }
    }
  }

  /**
   * A committed rename moves the entry within its folder: source and
   * destination end in the old and the new name, and they differ exactly
   * when the names do.
   */
  lemma {:induction false} RenameMoveSpec(dir: string, oldName: string, newName: string)
    requires '/' !in oldName && '/' !in newName
    ensures LastSegment(JoinChild(dir, oldName)) == oldName
    ensures LastSegment(JoinChild(dir, newName)) == newName
    ensures JoinChild(dir, oldName) == JoinChild(dir, newName) <==> oldName == newName
  {
    ChildLastSegment(dir, oldName);
    ChildLastSegment(dir, newName);
  }

  /** A shift-extension to row `t` computed by the source's loop, which throws on a missing row. */
  method ShiftExtendNow(c: Column, visible: seq<Entry>, t: int) returns (d: Column, threw: bool)
    ensures threw == ShiftThrows(c, visible, t)
    ensures d == ShiftMoved(c, visible, t)
  {
    var a := ShiftAnchor(c, t);
    var names;
    names, threw := CollectRange(visible, Min(a, t), Max(a, t));
    d := if threw then c.(selected := names) else c.(selected := names, cursor := t);
  }

  /** The selection update of `selectEntry`, with the range loop for a shift-click. */
  method SelectNow(c: Column, visible: seq<Entry>, entry: Entry, shift: bool) returns (d: Column, threw: bool)
    ensures threw <==> shift && c.anchor >= 0 && ShiftThrows(c, visible, IndexOfName(visible, entry.name))
    ensures !threw ==> d == Selected(c, visible, entry, shift)
    ensures threw ==> d == ShiftAborted(c, visible, IndexOfName(visible, entry.name))
  {
    var k := IndexOfName(visible, entry.name);
    if shift && c.anchor >= 0 {
      d, threw := ShiftExtendNow(c, visible, k);
    } else {
      d, threw := c.(selected := [entry.name], anchor := k, cursor := k), false;
    }
  }

  /** The columns after `refreshColumns`' first loop. */
  function Refetched(cols: seq<Column>, replies: seq<Option<seq<Entry>>>): (r: seq<Column>)
    requires |replies| == |cols|
    ensures |r| == |cols| && forall i :: 0 <= i < |cols| ==> r[i] == RefreshColumn(cols[i], replies[i])
  {
    seq(|cols|, i requires 0 <= i < |cols| => RefreshColumn(cols[i], replies[i]))
  }

  // ------------------------------------------------------------------ drop

  /** The move a drop of `src` onto `destDir` asks for, or None when it is skipped. */
  function DropMove(src: string, destDir: string): (r: Option<Move>)
    ensures r.Some? ==> r.value.src == src && r.value.dest == destDir + "/" + LastSegment(src)
    ensures r.None? <==> src == destDir + "/" + LastSegment(src) || src == destDir
  {
    var dest := destDir + "/" + LastSegment(src);
    if src == dest || src == destDir then None else Some(Move(src, dest))
  }

  /** The moves `handleDrop` requests, in order. */
  function DropPlan(paths: seq<string>, destDir: string): (r: seq<Move>)
    ensures |r| <= |paths|
  {
    if paths == [] then []
    else
      var m := DropMove(paths[|paths| - 1], destDir);
      DropPlan(paths[..|paths| - 1], destDir) + (if m.Some? then [m.value] else [])
  }

  /**
   * Every requested move takes a dragged path to the drop folder under its
   * own last segment and is never a no-op or a folder into itself; every
   * dragged path that is not skipped has its move requested.
   */
  lemma {:induction false} DropPlanSpec(paths: seq<string>, destDir: string)
    ensures forall m :: m in DropPlan(paths, destDir) ==>
      m.src in paths && m.dest == destDir + "/" + LastSegment(m.src) && m.src != m.dest && m.src != destDir
    ensures forall src :: src in paths && DropMove(src, destDir).Some? ==> DropMove(src, destDir).value in DropPlan(paths, destDir)
  {
    if paths != [] {
      var init := paths[..|paths| - 1];
      DropPlanSpec(init, destDir);
      assert paths == init + [paths[|paths| - 1]];
    }
  }

  /** Dragging entries of a folder onto that same folder moves nothing, unless the folder is `/`. */
  lemma {:induction false} SameFolderDrop(dir: string, name: string)
    requires '/' !in name && name != ""
    ensures dir != "/" ==> DropMove(JoinChild(dir, name), dir).None?
    ensures dir == "/" ==> DropMove(JoinChild(dir, name), dir) == Some(Move("/" + name, "//" + name))
  {
    ChildLastSegment(dir, name);
    if dir == "/" {
      assert JoinChild(dir, name) == "/" + name;
      assert dir + "/" + name == "//" + name;
    }
  }

  /** Dragging an entry onto a sibling folder moves it into that folder under its own name. */
  lemma {:induction false} SiblingFolderDrop(dir: string, name: string, folder: string)
    requires '/' !in name && name != folder
    ensures DropMove(JoinChild(dir, name), JoinChild(dir, folder))
            == Some(Move(JoinChild(dir, name), JoinChild(dir, folder) + "/" + name))
  {
    ChildLastSegment(dir, name);
    var src := JoinChild(dir, name);
    var dest := JoinChild(dir, folder) + "/" + name;
    assert |dest| > |src|;
    var pre := if dir == "/" then "/" else dir + "/";
    assert src == pre + name && JoinChild(dir, folder) == pre + folder;
    assert (pre + name)[|pre|..] == name && (pre + folder)[|pre|..] == folder;
  }

  /** Number of failed moves. */
  function Failures(succeeded: seq<bool>): (n: nat)
    ensures n <= |succeeded|
  {
    if succeeded == [] then 0 else Failures(succeeded[..|succeeded| - 1]) + (if succeeded[|succeeded| - 1] then 0 else 1)
  }

  /**
   * `handleDrop(e, destDir)`: `data` is the parsed drag payload (None when it
   * does not parse), `succeeded` the outcome of each move request.  A payload
   * that is not a non-empty list does nothing; otherwise each dragged path
   * yields its move unless skipped, failures are counted, and the columns
   * are refreshed.
   */
  method HandleDrop(data: Option<seq<string>>, destDir: string, succeeded: seq<bool>)
    returns (moves: seq<Move>, errors: nat, refresh: bool)
    requires data.Some? ==> |succeeded| == |DropPlan(data.value, destDir)|
    ensures refresh <==> data.Some? && data.value != []
    ensures moves == (if refresh then DropPlan(data.value, destDir) else [])
    ensures errors == (if refresh then Failures(succeeded) else 0)
  {
    moves, errors, refresh := [], 0, false;
    if data.None? || data.value == [] {
      return;
    }
    var paths := data.value;
    var i := 0;
    while i < |paths|
      invariant 0 <= i <= |paths|
      invariant moves == DropPlan(paths[..i], destDir)
      invariant |moves| <= |succeeded| && errors == Failures(succeeded[..|moves|])
    {
      moves, errors := DropOne(paths, i, destDir, succeeded, moves, errors);
      i := i + 1;
    }
    WholePrefix(paths);
    WholePrefix(succeeded);
    refresh := true;
  }

  /** One turn of the drop loop: the move of the `i`-th path, if any, is requested and its outcome counted. */
  method DropOne(paths: seq<string>, i: nat, destDir: string, succeeded: seq<bool>, moves: seq<Move>, errors: nat)
    returns (moves': seq<Move>, errors': nat)
    requires i < |paths| && |succeeded| == |DropPlan(paths, destDir)|
    requires moves == DropPlan(paths[..i], destDir)
    requires |moves| <= |succeeded| && errors == Failures(succeeded[..|moves|])
    ensures moves' == DropPlan(paths[..i + 1], destDir)
    ensures |moves'| <= |succeeded| && errors' == Failures(succeeded[..|moves'|])
  {
    var move := DropMove(paths[i], destDir);
    DropPlanSnoc(paths, i, destDir);
    DropPlanPrefix(paths, i + 1, destDir);
    moves', errors' := moves, errors;
    if move.Some? {
      FailuresSnoc(succeeded, |moves|);
      if !succeeded[|moves|] {
        errors' := errors + 1;
      }
      moves' := moves + [move.value];
    }
  }

  lemma {:induction false} DropPlanSnoc(paths: seq<string>, i: nat, destDir: string)
    requires i < |paths|
    ensures DropPlan(paths[..i + 1], destDir) == DropPlan(paths[..i], destDir)
      + (if DropMove(paths[i], destDir).Some? then [DropMove(paths[i], destDir).value] else [])
  {
    assert paths[..i + 1][..i] == paths[..i];
  }

  lemma {:induction false} FailuresSnoc(succeeded: seq<bool>, n: nat)
    requires n < |succeeded|
    ensures Failures(succeeded[..n + 1]) == Failures(succeeded[..n]) + (if succeeded[n] then 0 else 1)
  {
    assert succeeded[..n + 1][..n] == succeeded[..n];
  }

  lemma {:induction false} WholePrefix<T>(s: seq<T>)
    ensures s[..|s|] == s
  {
  }

  /** A prefix of the dragged paths plans no more moves than the whole payload. */
  lemma {:induction false} DropPlanPrefix(paths: seq<string>, n: nat, destDir: string)
    requires n <= |paths|
    ensures |DropPlan(paths[..n], destDir)| <= |DropPlan(paths, destDir)|
    decreases |paths| - n
  {
    if n < |paths| {
      DropPlanPrefix(paths, n + 1, destDir);
      assert paths[..n + 1][..n] == paths[..n];
      assert |DropPlan(paths[..n + 1], destDir)| >= |DropPlan(paths[..n], destDir)|;
    } else {
      assert paths[..n] == paths;
    }
  }
}
