# ssh-gui browser and server parsers in Dafny

This project models the core of ssh-gui, a web front end for one SSH
connection. It covers the Miller-column file browser of the client
(`static/app.js`) and the small parsers inside the Flask handlers of the
server (`app.py`).

Client side:

- **Browser** (`browser.dfy`): the class `Browser` holds the global state:
  - `state.columns`, `state.focusedColumn` and `state.renaming`;
  - the sort settings and `selectGeneration`.
  
  Each handler that awaits is split at the `await`, and every async step
  becomes an explicit event method:
  - `SelectEntry`, then `ResolveDirFetch` and `ApplyListingBody`;
  - `CompleteNavigate`, `BeginDirSizes`/`CompleteDirSizes` and
    `CompletePreview`.
  
  So the stale-reply rule, keyed on the captured generation or on the
  identity of the asking column, is part of the contracts. The module also
  holds the keyboard state machine, the inline rename and the drag-and-drop
  batch.
- **Columns** (`columns.dfy`): what the browser derives from the column
  stack:
  - visible entries, shift ranges and drag sources;
  - the current path and the path bar;
  - preview classification and the folder-size bookkeeping.
- **Entries** (`entries.dfy`): the client's three sort orders over entries,
  and `getExtension`.
- **Sorting** (`sorting.dfy`): a stable sort. It stands for
  `Array.prototype.sort` and Python's `sorted`.
- **Paths** (`paths.dfy`): child joins on both sides, and the breadcrumb's
  cumulative paths.
- **Perms** (`perms.dfy`): the mode-string permission helpers, the chmod
  pill toggle, the permission phrases, and `escapeAttr`.
- **Terminal** (`terminal.dfy`): click-to-move. It covers:
  - the Device Status Report / Cursor Position Report exchange of ECMA-48
    (sections 8.3.35 and 8.3.14) as an incremental listener (`CursorQuery`);
  - the CUF/CUB keys a click sends (sections 8.3.20 and 8.3.18);
  - the backslash escaping of `cd` (section 2.2.1 of the POSIX Shell
    Command Language).
- **Favourites** (`favourites.dfy`): the four-host star limit, and the
  sidebar shortcut list.

Server side:

- **SshHosts** (`server_config.dfy`): `parse_ssh_config`'s host list, and
  the block `save_host` appends.
- **Listing** (`server_listing.dfy`): `list_directory`'s entry records and
  their sort key.
- **DirSizes** (`server_sizes.dfy`): `get_dir_sizes`'s `du` script and its
  output parser.
- **Tmux** (`server_tmux.dfy`): `tmux_status` and `tmux_windows`.
- **FilePreview** (`server_preview.dfy`): `preview_file`'s size limits and
  its binary/text classification.

Supporting modules: `Text`, `Decimal` and `Wrappers`.

Loops in the source are methods with loop invariants. Each is proved equal
to a specification function, and the lemmas beside that function state what
the source promises.

Five behaviours are kept as the code has them, even where a reading of the
application's intent might expect otherwise:

- The click handler compares xterm's own `cursorY` with the reported row.
  It does not compare the clicked row.
- The `du -sk` fallback reports kilobytes, and the parser records them as
  bytes.
- A drop onto `/` asks for a move to `//name`.
- A listing body read after a newer selection still lands. This is because
  the generation is checked only after `fetch` resolves and in the `catch`.
- A stale anchor or cursor is not clamped. After hidden files are hidden
  again or a refresh shrinks a folder, a Shift range, ArrowUp or Enter can
  read `.name` of a row that is gone. The handler then stops on the
  TypeError, and the model returns `Aborted` with the state the code leaves
  at that point.

## Model

| member | source | states |
|---|---|---|
| Browser.Browser.constructor | static/app.js:3-37 | the initial state has no columns, focus 0, generation 0, no rename, hidden files hidden, name order ascending |
| Browser.Browser.SelectEntry | static/app.js:542-672 | bumps the generation exactly once; a shift-click whose range loop meets a missing row (stale anchor, or the entry not visible) stops there: the clicked column holds the names read so far and nothing else changes; otherwise the clicked column is focused, a folder keeps columns `[0, colIndex]` with the new selection and returns the fetch carrying the generation and the joined path, and a file also appends a FileInfo column and, under the size ceiling, a preview column, and returns the path to preview |
| Browser.Browser.Reselect | static/app.js:542-569 | the synchronous head of `selectEntry` after the selection update: one more generation, the clicked column replaced by its updated self, every later column closed, focus on it; ids and settings unchanged |
| Browser.Browser.AppendColumns | static/app.js:632-658 | fresh columns numbered from the id counter are pushed after the stack, and the counter moves past them |
| Browser.SelectedSpec | static/app.js:548-560 | a plain click selects exactly the clicked name with anchor = cursor = its visible index; a shift-click with an anchor selects exactly the names between the anchor and the clicked row, moves the cursor there and keeps the anchor |
| Browser.SelectNow | static/app.js:546-560 | the selection update throws exactly for a shift-click with an anchor whose range reaches a missing row, and then leaves what the loop read; otherwise it computes the specified click |
| Browser.FileColumns | static/app.js:619-658 | selecting a file appends one FileInfo column at the joined path, plus a fresh preview column exactly when the size is within the ceiling for its name |
| Browser.Browser.ResolveDirFetch | static/app.js:573-661 | a settled fetch from an older generation changes nothing; a current response goes on to its body; a current network error leaves columns `[0, colIndex]` plus an error column for the folder and focuses the clicked column |
| Browser.Browser.PushError | static/app.js:594-616 | the stack becomes columns `[0, colIndex]` followed by one error column at the requested path |
| Browser.Browser.ApplyListingBody | static/app.js:580-661 | a listing body lands without a second generation check: a good body leaves columns `[0, colIndex]` plus the fresh listing, whose folder sizes are then asked for; an error body leaves an error column; only an unparsable body is dropped when stale; every body that lands focuses the clicked column |
| Browser.Browser.CompleteNavigate | static/app.js:484-516 | a listing replaces the whole stack with that one fresh directory, focused at 0, and asks for its folder sizes; a failure changes nothing; the generation is not touched |
| Browser.Browser.NavigateToBreadcrumb | static/app.js:518-534 | when a column shows the path, the stack is cut after the first such column, its selection is cleared and it is focused; otherwise nothing changes and the path is loaded afresh |
| Browser.Browser.Deselect | static/app.js:1108-1119 | a blank-space click clears the column's selection, anchor and cursor, closes every later column and focuses it |
| Browser.Browser.BeginDirSizes | static/app.js:1769-1790 | the column is marked as having asked, and the request names its folders and remembers the column's identity and index; an index out of range changes nothing |
| Browser.Browser.CompleteDirSizes | static/app.js:1791-1806 | the reply is applied only when the same column still sits at the index; then each folder named in the reply takes its size, and nothing else changes |
| Browser.Browser.CompletePreview | static/app.js:674-710 | a reply updates the first preview column for the path as `fetchPreview` classifies it; a failed request or a missing column changes nothing |
| Browser.Browser.EnterNextColumn | static/app.js:1499-1510 | focus moves to the next column when there is one, and its first visible entry is opened when nothing in it is selected |
| Browser.Browser.HandleKey | static/app.js:1415-1564 | the key state machine: ignored without columns or visible entries; only Escape acts during a rename; the arrows move the clamped cursor (extending the range with Shift, opening the row without); Right enters the next column or re-opens the single selection; Left keeps columns `[0, fc)`; Escape clears and truncates to `fc + 1`; Enter starts a rename of the cursor row; it aborts exactly when it reads a missing row: a Shift range past the visible entries (the column then holds the names read so far), ArrowUp without Shift from a cursor more than one past the end (the generation has moved on), or Enter on a vanished cursor row (nothing changes) |
| Browser.Browser.NavigateKey | static/app.js:1445-1564 | outside a rename, each bound key does what its case says, aborting exactly where it reads a missing row, and every other key changes nothing |
| Browser.Browser.VerticalKey | static/app.js:1446-1496 | ArrowDown and ArrowUp move the cursor to the clamped next or previous row, extending the range with Shift and opening the row without; a stale anchor or cursor that sends them past the visible entries aborts them |
| Browser.Browser.RightKey | static/app.js:1497-1532 | ArrowRight enters the next column when there is one, else re-opens the single selected entry when it is visible, else does nothing; it never aborts |
| Browser.Browser.ColumnKey | static/app.js:1533-1562 | Enter starts a rename of the cursor row exactly when one name is selected and that row exists, and aborts with nothing changed when it does not; ArrowLeft closes the focused column unless it is the first; Escape clears the focused column and closes the ones after it; other keys change nothing |
| Browser.Browser.CloseFocused | static/app.js:1540-1550 | the stack keeps columns `[0, fc)` and focus moves one column left |
| Browser.Browser.ClearFocused | static/app.js:1551-1562 | the focused column loses selection, anchor and cursor and becomes the last column |
| Browser.Browser.MoveCursor | static/app.js:1446-1495 | with Shift only the focused column changes, to the range from its anchor to the row, or to the names read before a missing row, which aborts; without Shift nothing changes and an existing row is opened, while a missing one takes a generation and aborts |
| Browser.KeyIndexInRange | static/app.js:1446-1475 | ArrowDown always lands on a row (0 when there is no cursor, else one down, clamped); ArrowUp does too whenever the cursor is at most one past the end |
| Browser.KeyThrowsIffOutOfBounds | static/app.js:1446-1539 | over a non-empty list the handler aborts exactly when a row it indexes is out of bounds: the anchor of a Shift range, the row ArrowUp moves to, or the cursor row Enter renames |
| Browser.ShiftExtendNow | static/app.js:1450-1459 | the shift loop builds the range selection from the anchor (or the new row when unset) to the row and puts the cursor there, or throws exactly when the range reaches a missing row and keeps what it read |
| Browser.ShiftAbortedSpec | static/app.js:1450-1459 | a shift-extension to an existing row throws exactly when the anchor is past the visible entries, and then keeps exactly the names from that row to the last visible one |
| Browser.ReopenOutcome | static/app.js:1511-1516 | ArrowRight on the last column re-opens exactly when one name is selected and it is visible, and then opens that entry |
| Browser.Browser.StartRename | static/app.js:2097-2113 | the rename state becomes the column and the name; nothing else changes |
| Browser.Browser.CancelRename | static/app.js:2115-2119 | the rename state is cleared; nothing else changes |
| Browser.Browser.CommitRename | static/app.js:2121-2143 | the rename closes first; a move is asked for exactly when the trimmed text is non-empty, differs from the old name and the column has a path; it moves the old child path to the new one |
| Browser.RenameMoveSpec | static/app.js:2133-2136 | source and destination of a rename end in the old and the new name, and they differ exactly when the names do |
| Browser.Browser.RefreshColumns | static/app.js:1234-1269 | each re-listed directory column takes its new entries and keeps only the selected names still listed; a failed re-list keeps the column; every directory column then asks for its sizes again |
| Browser.Browser.RefetchColumns | static/app.js:1236-1257 | the first loop of the refresh: each column becomes its refreshed self |
| Browser.Browser.ResizeColumns | static/app.js:1261-1268 | the second loop of the refresh: sizes are forgotten and asked for again, in column order |
| Browser.Browser.ResizeAt | static/app.js:1263-1266 | one column of that loop becomes its resized self and nothing else changes |
| Browser.DropMove | static/app.js:1211-1214 | a dragged path moves to the drop folder plus "/" plus its last segment, and is skipped exactly when that equals the source or the source is the drop folder |
| Browser.DropPlanSpec | static/app.js:1210-1225 | every requested move goes to the drop folder under its own last segment and is never a no-op; every dragged path that is not skipped has its move requested |
| Browser.SameFolderDrop | static/app.js:1212-1214 | a drop onto the entry's own folder moves nothing, except at `/`, where it asks for `//name` |
| Browser.SiblingFolderDrop | static/app.js:1212-1214 | a drop onto a sibling folder moves the entry into it under its own name |
| Browser.HandleDrop | static/app.js:1201-1232 | a payload that is not a non-empty list does nothing; otherwise the planned moves are made in order, failures are counted without stopping, and the columns are refreshed |
| Browser.DropOne | static/app.js:1211-1225 | one turn of the drop loop extends the requested moves by the path's move, if any, and the failure count by that move's outcome |
| Columns.VisibleEntriesSpec | static/app.js:712-720 | nothing is visible for FileInfo, preview or error columns; otherwise the visible entries are exactly the non-hidden ones (all when hidden files are shown), each as often as listed, with folders grouped as the mode says |
| Columns.IndexOfName | static/app.js:546 | the first visible index carrying the name, or -1 when none does |
| Columns.RangeNamesSpec | static/app.js:551-554 | the range selection holds exactly the names at the indices between its two ends |
| Columns.RangeSymmetric | static/app.js:549-550 | the range is the same whichever end is the anchor |
| Columns.CollectRange | static/app.js:551-554 | the selection loop builds exactly that range, or throws exactly when some index of the range has no entry, keeping the names read before it |
| Columns.RangeReadSpec | static/app.js:551-554 | a loop that throws keeps exactly the names from its start to the last entry, none when it starts before the first |
| Columns.CollectWhilePresent | static/app.js:551-554 | from a present row the loop reads up to the range end or the last entry, whichever comes first, collecting exactly those names |
| Columns.LastSelectedIndex | static/app.js:1426-1432 | the fallback cursor, the visible index of the last-added selected name, is -1 or a valid row |
| Columns.DragSources | static/app.js:1053-1061 | a drag carries the whole selection when the dragged entry is selected, else that entry alone, each joined to the column's path |
| Columns.DragSourcesNames | static/app.js:1059-1061 | the drop handler recovers each dragged name as the last segment of its path |
| Columns.CurrentPath | static/app.js:1277-1283 | the deepest column with a non-empty path, and None exactly when there is none |
| Columns.PathBar | static/app.js:1322-1338 | the path bar is empty exactly when no column is a FileInfo column or carries a path; otherwise it comes from the deepest such column: a FileInfo column shows its file, a directory with one selected name shows that child, any other directory shows itself |
| Columns.PathBarSkipsPreviews | static/app.js:1323-1337 | a preview column appended to the stack does not change the path bar |
| Columns.FindPathColumn | static/app.js:520 | the first directory column showing the path, or -1 when none does |
| Columns.MaxPreviewSize | static/app.js:641-647 | the ceiling is 5 MiB for image names, 10 MiB for PDF names and 1 MiB otherwise |
| Columns.ApplyPreviewJson | static/app.js:689-704 | the first of error, pdf, image and binary that the reply carries decides which fields are set, text otherwise, and the record is marked loaded |
| Columns.FindPreview | static/app.js:684-687 | the first preview column for the path, or -1 |
| Columns.DirNames | static/app.js:1780 | the names of exactly the folder entries |
| Columns.SizesStarted | static/app.js:1771-1783 | after the synchronous part of `fetchDirSizes`, a column no longer wants sizes; selection, anchor and cursor stay |
| Columns.SizesQuery | static/app.js:1771-1790 | a request is sent exactly for a directory column with a path that has not asked yet and has folders; it names those folders and the column |
| Columns.WithDirSize | static/app.js:1800-1804 | an entry changes only when it is a folder named in the reply, and then only takes that size |
| Columns.WithDirSizesSpec | static/app.js:1800-1804 | the reply changes nothing but the size field, and sets it on exactly the folders the reply names |
| Columns.KeepListedSpec | static/app.js:1249-1252 | after a refresh the selection holds exactly the selected names still listed, and stays free of repeats |
| Columns.PruneSelection | static/app.js:1250-1252 | the deletion loop computes exactly that pruned selection |
| Columns.RefreshColumn | static/app.js:1237-1253 | a directory column with a path whose listing came back takes the new entries and prunes its selection; any other column is unchanged; anchor and cursor stay |
| Columns.Resized | static/app.js:1263-1266 | the second refresh loop leaves selection, anchor and cursor alone, and leaves columns without a path unchanged |
| Columns.ResizeQuery | static/app.js:1263-1266 | a column asks for sizes again only when it has a path, and the request carries its index, id and path |
| Entries.ModeOf | static/app.js:726-757 | the switch sorts by kind exactly for "kind", by size exactly for "size", and by name otherwise |
| Entries.GetExtension | static/app.js:761-764 | an extension never contains a dot |
| Entries.ExtensionOfDotted | static/app.js:761-764 | the extension of `stem.ext` with a non-empty stem is `ext`, lower-cased |
| Entries.NoExtension | static/app.js:761-764 | a name whose only dot is its first character, or with no dot, has no extension |
| Entries.EntryOrderConsistent | static/app.js:722-759 | each mode's comparator is antisymmetric and transitive, so the sort is well defined |
| Entries.SortEntriesPermutes | static/app.js:722-759 | sorting neither drops nor adds entries |
| Entries.FoldersGrouped | static/app.js:722-759 | in name and kind order every folder precedes every file, in size order every file precedes every folder, in both directions |
| Entries.SizeTieBreakAscending | static/app.js:741-747 | files of equal size stay in ascending name order even when the direction is descending |
| Entries.NameOrderDirected | static/app.js:750-756 | within each group, names are ascending when ascending is set and descending otherwise |
| Entries.KindGroupsByExtension | static/app.js:727-738 | in kind order, files with different extensions are ordered by extension in the chosen direction |
| Sorting.FilterMembers | static/app.js:714-716 | the filter keeps exactly the elements satisfying the predicate |
| Sorting.FindIndex | static/app.js:546 | `findIndex` returns the first index whose element satisfies the test, or -1 exactly when none does |
| Sorting.SortBy | static/app.js:722-759 | the sort returns a permutation of its input |
| Sorting.InsertMultiset | static/app.js:722-759 | one insertion step adds exactly the inserted element |
| Sorting.InsertSorted | static/app.js:722-759 | with a consistent comparator, inserting into an ordered sequence keeps it ordered |
| Sorting.SortSorted | static/app.js:722-759 | with a consistent comparator, the output is ordered by it |
| Sorting.SortStable | static/app.js:722-759 | elements the comparator ranks equal keep their input order |
| Sorting.SortOfSorted | app.py:291 | an already ordered sequence is returned unchanged |
| Paths.JoinChild | static/app.js:566-567 | the child join adds one separator, except after the root |
| Paths.ChildLastSegment | static/app.js:1212 | the last segment of a child path is the child's name |
| Paths.PosixJoinIsJoinChild | app.py:274 | for a normalised folder and a relative name, the server's join is the client's |
| Paths.PosixJoinLastSegment | app.py:337 | the basename of the server's join is the name |
| Paths.Segments | static/app.js:1286 | the segments of a path are non-empty and contain no `/` |
| Paths.Breadcrumb | static/app.js:1286-1312 | the breadcrumb is the root item followed by one item per segment |
| Paths.CrumbPathsAreAbsolute | static/app.js:1295-1305 | each cumulative item equals the absolute path of the segments so far |
| Paths.SegmentsOfAbsPath | static/app.js:1286 | splitting an absolute path built from segments gives those segments back |
| Paths.BreadcrumbRoundTrip | static/app.js:1286-1312 | the last breadcrumb item of a canonical folder path is that path, and each item is the child join of the previous one with its segment |
| Paths.CrumbStep | static/app.js:1304-1305 | item `k` is the child join of item `k - 1` with segment `k - 1` |
| Paths.CrumbIsAbsPath | static/app.js:1304-1305 | item `k` is the absolute path of the first `k` segments |
| Perms.TripleValue | static/app.js:1844-1846 | one class's permissions are an octal digit |
| Perms.PermBitsToOctal | static/app.js:1843-1853 | the mode sent to chmod is below 0o1000 |
| Perms.TripleRoundTrip | static/app.js:1844-1846 | octal digit and permission triple determine each other |
| Perms.OctalRoundTrip | static/app.js:1843-1853 | every bit pattern has its own number below 512, and every such number is one |
| Perms.ChmodFlipsOneBit | static/app.js:1881-1883 | a pill click changes exactly the clicked bit of the mode as read; a mode string too short to read sends 0 |
| Perms.PermString | app.py:286 | `stat.filemode`'s permission part has nine characters |
| Perms.ParsePermString | static/app.js:1821-1841 | reading back the mode string of a plain mode gives its permission bits and its number |
| Perms.SetIdWithoutExecReadsAsExec | static/app.js:1828 | `-rwSr--r--` is read as 0o744, so clicking group write sends 0o764 |
| Perms.PhrasesOf | static/app.js:2265-2272 | Read, Write, Execute and "Set ID (no exec)" are listed exactly for `r`, `w`, `x`/`s`/`t` and `S`/`T` |
| Perms.PhrasesAgreeWithBits | static/app.js:2265-2278 | phrases and bits agree on read and write, and on execute except for `S`/`T` (execute for the bits, not for the words) and a misplaced `t` or `s` |
| Perms.EscapeAttr | static/app.js:2091-2093 | escaping never shortens the text |
| Perms.EscapeAttrRoundTrip | static/app.js:2091-2093 | a path without line breaks reads back exactly from the single-quoted literal |
| Terminal.CprAtMatches | static/app.js:1743 | every report found is a match of `ESC [ digits ; digits R`, decoded to 0-based row and column |
| Terminal.MatchesCprAt | static/app.js:1743 | every match of the pattern at a position is found there |
| Terminal.FindCprFromSpec | static/app.js:1743 | the search returns the leftmost report, and nothing only when there is none |
| Terminal.FirstCprFrom | static/app.js:1743 | the search stops at the first position holding a report, or at the end with no report before it |
| Terminal.FindCprAppend | static/app.js:1742-1744 | once a report is found, more text does not change it |
| Terminal.ListenIsLeftmost | static/app.js:1738-1751 | checking after every chunk reports the leftmost report of everything received |
| Terminal.CursorQuery.constructor | static/app.js:1735-1736 | the listener starts listening with an empty buffer |
| Terminal.CursorQuery.OnData | static/app.js:1738-1751 | while listening, data is appended and the first report in the buffer is handed over, which stops listening; afterwards data is ignored |
| Terminal.CursorQuery.Timeout | static/app.js:1759-1764 | the timeout stops the listener and keeps the buffer |
| Terminal.Repeat | static/app.js:1727 | `repeat(n)` has n times the length |
| Terminal.RepeatMoves | static/app.js:1725-1727 | n CUF keys move the cursor n columns right, n CUB keys n columns left |
| Terminal.ClickKeysReachClick | static/app.js:1715-1729 | keys are sent exactly when the rows agree and the columns differ, and they move the cursor onto the clicked column, three characters per column |
| Terminal.ShellEscape | static/app.js:1687 | escaping never shortens the path |
| Terminal.ShellEscapeRoundTrip | static/app.js:1687 | a shell reads the escaped path, without tab or newline and not starting with `~` or `#`, back as exactly that path |
| Terminal.ShellEscapeCharsRoundTrip | static/app.js:1687 | the escaped characters of a path without tab or newline read back as that path |
| Terminal.ShellEscapeLeadingSpecial | static/app.js:1687 | a path starting with `~` or `#` is left unescaped there and is not read back literally |
| Terminal.ShellEscapeUnreadable | static/app.js:1687 | a path holding a tab or newline is not read back as one word |
| Terminal.CdCommand | static/app.js:1675-1693 | a `cd` is sent exactly when some column has a path, to the deepest one, escaped |
| Favourites.Dedup | static/app.js:228 | the stored list as a Set: no repeats, the same names |
| Favourites.Remove | static/app.js:237 | deleting a name removes exactly it |
| Favourites.ToggleStarSpec | static/app.js:234-247 | a starred host is unstarred; an unstarred one is starred unless four are starred already, when nothing is stored; the list never repeats a name or grows beyond four |
| Favourites.IndexOfPath | static/app.js:1989 | the first shortcut with the path, or -1 |
| Favourites.ToggleFavouriteFlips | static/app.js:1985-1996 | on an unchanged list the menu action flips whether the path is a shortcut, keeps every other one and keeps paths distinct |
| Favourites.RemoveIndex | static/app.js:1990 | splicing index `i` out of a list without repeats removes exactly its element |
| Favourites.ShortcutName | static/app.js:2417 | a shortcut label is never empty |
| Favourites.DroppedShortcutsSound | static/app.js:2400-2420 | every appended shortcut is a new, listed folder from the drop, under its label, and the paths stay distinct |
| Favourites.DroppedShortcutsComplete | static/app.js:2400-2420 | every dropped path that a column lists as a folder is a shortcut afterwards |
| Favourites.AddDroppedDirs | static/app.js:2400-2420 | the loop appends exactly those shortcuts and counts them |
| SshHosts.HostOf | app.py:43-55 | the entry keeps the name, and is missing exactly when the port is set and not an integer |
| SshHosts.CollectedSpec | app.py:40-55 | the entries collected are exactly those of the non-pattern names, and collecting fails exactly when one of them has a bad port |
| SshHosts.ByNameConsistent | app.py:57 | the name order is a consistent comparator |
| SshHosts.HostListSpec | app.py:30-57 | the list exists exactly when every concrete host has an integer port; it has no patterns, every concrete host with its options, and is sorted by name |
| SshHosts.ParseSshConfig | app.py:39-57 | the loop builds exactly the specified host list |
| SshHosts.SaveHost | app.py:89-121 | a non-integer port raises; an empty stripped alias or hostname, or an existing alias, is refused with its message; otherwise the lines are a blank line, Host, HostName, then User, Port and IdentityFile only when they differ from the defaults |
| SshHosts.AppendField | app.py:113-118 | an optional field is appended, with its line break, exactly when it is written |
| SshHosts.BlockRoundTrip | app.py:112-118 | the appended text reads back as the host it was built from, defaults where nothing was written |
| Listing.EntryOfFields | app.py:267-288 | size and mtime read 0 when absent; no mode gives `?---------` and neither folder nor link; a link is a folder by its target's mode |
| Listing.ListDirectory | app.py:257-298 | without a connection 400; otherwise the records in key order, or 403, 404 or 400 for the listing errors |
| Listing.KeyCompareIsNameOrder | app.py:291 | the server's sort key orders entries as the client's name order, ascending |
| Listing.KeyOrderConsistent | app.py:291 | the key order is a consistent comparator |
| Listing.SortedListingSpec | app.py:291 | the listing holds every record once, folders first, by lower-cased name within each group |
| Listing.ClientNameSortKeepsListing | app.py:291 | the client's default sort leaves the server's listing as it is, with both sides comparing ASCII-lower-cased names by code point |
| DirSizes.DuScript | app.py:311-327 | no command exactly when the path or the names are empty; otherwise one clause per name joined by "; " and ended by "; exit 0" |
| DirSizes.Clauses | app.py:319-326 | one clause per name |
| DirSizes.LineRecord | app.py:334-341 | a line records only a positive size |
| DirSizes.ParseDuOutput | app.py:332-343 | the loop computes exactly the specified size map |
| DirSizes.DuSizesFirstWins | app.py:332-343 | the map holds exactly the names some line records, each with the value of the first such line, all positive |
| DirSizes.FallbackRecordsNothing | app.py:325 | the fallback line of a folder `du` could not measure records nothing |
| DirSizes.DuLineRecords | app.py:333-341 | a line `du` prints for a folder, with a positive size, records that size under the folder's name |
| Tmux.TmuxStatus | app.py:584-594 | tmux is active exactly when connected with non-empty output, and a session is reported exactly then |
| Tmux.StatusReportsFirstSession | app.py:589-593 | with sessions listed one per line, the first one is reported |
| Tmux.TmuxWindows | app.py:598-618 | no windows without a connection or output; otherwise the windows of the output's lines, failing when a number does not parse |
| Tmux.WindowLineRoundTrip | app.py:609-617 | one printed window line reads back as its window |
| Tmux.FormatWindowFields | app.py:603-610 | a printed line splits at its bars into exactly the four printed fields, for names without a bar or a line break |
| Tmux.WindowsRoundTrip | app.py:602-617 | what tmux prints for a list of windows reads back as exactly that list, active flags and pane counts included |
| FilePreview.ImageMimeKnown | app.py:448-458 | every image extension maps to an `image/` MIME type, never the octet-stream default |
| FilePreview.Prefix | app.py:500 | `read(n)` returns a prefix of at most n bytes, n bytes when the file has them |
| FilePreview.PreviewClassification | app.py:470-514 | images over 5 MiB and PDFs over 10 MiB are refused as too large and otherwise returned as data; other files are binary exactly when a NUL lies in the first 8192 bytes, else text of the first 64 KiB, truncated exactly when larger |
| FilePreview.ProbeFindsNul | app.py:500-506 | the probe of the first 8192 bytes of what was read finds a NUL exactly when the file has one there |
| FilePreview.PreviewFailures | app.py:462-520 | 400 without a connection or a path; stat and read errors answer 403, 404 or 400; refusals come from nothing else |
| FilePreview.ClientReadsReply | static/app.js:689-704 | the client files each reply under its kind: error, image with data and type, PDF, binary marker, or text with its truncation flag |
| FilePreview.SplitExtOf | app.py:474 | the extension of a path ending in `stem.ext` is `.ext` when the stem is not all dots |
| FilePreview.ServerExtensionOfChild | app.py:474 | the server's extension of the client's child path is the dotted, lower-cased extension |
| FilePreview.ClientImageTest | static/app.js:641 | the client's image test on `stem.ext` holds exactly for the image extensions, in any case |
| FilePreview.ClientServerAgree | static/app.js:641-642 | client and server classify such a name alike as image, PDF or other |
| FilePreview.RequestedPreviewNotTooLarge | static/app.js:641-657 | a file the client asks to preview is never refused as too large by the server |
| FilePreview.HiddenImageNameIsText | app.py:474 | a hidden file named `.png` is an image to the client but has no extension for the server |
| Decimal.NatToString | app.py:116 | the rendering is a non-empty digit string with the number's value and no leading zero |
| Decimal.ParsePyInt | app.py:338 | `int()` succeeds only on text that is not blank |
| Decimal.IntRoundTrip | app.py:613-616 | `int()` reads back what `str()` wrote |

## Left out

- Rendering is not modelled: the DOM, HTML, context menus, notifications,
  scrolling, resize handles, icons and `escapeHtml`.
- Network and storage are not modelled: `fetch`, socket.io and
  `localStorage`. Their results are event parameters, and the stored lists
  are taken as already parsed.
- xterm.js is not modelled: `onData` registration, `getSelection`,
  `cursorY` and the 500 ms timer. The cursor row and the clicked column are
  parameters, and the timeout is an event.
- The pixel-to-column computation is not modelled, because it uses
  floating point.
- `formatSize` (floating point) and `formatDate` (locale formatting) are not
  modelled.
- Async steps are not interleaved freely. Each is an event method on the
  state, and the refresh's per-column replies are given all at once.
- Entries.EntryCompare: `localeCompare` is replaced by a code-point order on
  ASCII-lower-cased names. This is because the locale collation is not
  available.
- Listing.ClientNameSortKeepsListing: holds for the code-point stand-in of
  `localeCompare`. Under a real collation the two orders can differ, for
  example on "a0" and "a~", which code points order one way and the usual
  collation the other.
- Listing.KeyCompare: Python's `str.lower` is replaced by ASCII case folding,
  so non-ASCII names (for example "É") are compared unfolded.
- Entries.GetExtension: JavaScript's `toLowerCase` is replaced by ASCII case
  folding, so a non-ASCII extension keeps its case.
- FilePreview.PreviewFile: the `.lower()` of the extension folds ASCII only.
  The same goes for the case-insensitive suffix tests of
  Columns.EndsWithExtension.
- Terminal.ShellEscapeRoundTrip: requires the path not to start with `~` or
  `#`, which the escaping leaves bare (Terminal.ShellEscapeLeadingSpecial).
  The browser's column paths are absolute, so the path `cd` receives starts
  with "/".
- Listing.EntryOf: `stat.filemode` is a parameter, because it is a library
  call.
- DirSizes.Clauses: `shlex.quote` is a parameter, because it is a library
  call.
- FilePreview.PreviewFile: `base64` and the UTF-8 decode are parameters. The
  file is given as all of its bytes, and the reads take prefixes of them.
  Exceptions other than the three error kinds are one `Failed` outcome.
- Listing.ListDirectory: the path is taken as already normalised, because
  `posixpath.normpath` is a library call.
- SshHosts.ParseSshConfig: paramiko's parser is left out. The host names
  come as a sequence in the order it hands them out, and `lookup` stands for
  its answers. So multi-name `Host` lines and wildcard inheritance are not
  modelled.
- SshHosts.SaveHost: only string fields and integer or text ports are
  modelled. JSON `null`, non-string fields and float ports are left out, and
  so is the file append itself.
- Decimal.ParsePyInt: only ASCII digits are accepted. Python's `int()` also
  reads other Unicode decimal digits.
- Terminal.CursorQuery.OnData: the row and column are exact integers, with
  no `parseInt` precision limit.
- Terminal.ClickKeysReachClick: the cursor is moved on an unbounded line.
  The clamping of a real line editor at the line's ends is not modelled.
- Browser.Browser.CompleteDirSizes: the reply is a map of names. Keys such
  as `__proto__`, which a JavaScript object would handle differently, are
  not modelled.
- Perms.PhrasesOf: states which phrases a class gets, but not their order,
  the ", " join or the "None" fallback. The short-mode case of
  `humanizePermissions` has no lemma.
- Perms.EscapeAttrRoundTrip: states how the text reads inside a
  single-quoted JavaScript literal, not inside the surrounding HTML
  attribute.
- The `handleChmod` request and reply are not modelled. Only the mode it
  sends is (Perms.ChmodFlipsOneBit).
- Browser.HandleDrop: the drag payload is taken as a list of strings once
  parsed. Other JSON element types are not modelled.
- Tmux and package panels beyond `tmux_status`/`tmux_windows` are not
  modelled, nor are git info, the connection code and the terminal reader
  thread. These are remote commands, I/O and concurrency.
