/**
 * The saved lists of static/app.js: starred hosts (at most four, kept as a
 * set in insertion order) and the sidebar's folder shortcuts, added and
 * removed from the context menu or by dropping folders on the sidebar.
 * The stored JSON is taken as already parsed.
 */
module Favourites {
  import opened Wrappers
  import opened Text
  import opened Paths
  import opened Columns
  import opened Sorting

  const MaxStarred := 4

  /** `new Set(list)`: the distinct names in order of first appearance. */
  function Dedup(s: seq<string>): (r: seq<string>)
    ensures NoDup(r) && |r| <= |s|
    ensures forall x :: x in r <==> x in s
  {
    if s == [] then []
    else
      var d := Dedup(s[..|s| - 1]);
      assert forall x :: x in s <==> x in s[..|s| - 1] || x == s[|s| - 1];
      if s[|s| - 1] in d then d else d + [s[|s| - 1]]
  }

  /** `set.delete(x)`: the other elements in their order. */
  function Remove(s: seq<string>, x: string): (r: seq<string>)
    ensures forall y :: y in r <==> y in s && y != x
    ensures NoDup(s) ==> NoDup(r) && (x in s ==> |r| == |s| - 1)
    ensures x !in s ==> r == s
  {
    if s == [] then []
    else if s[0] == x then
      var r := Remove(s[1..], x);
      assert NoDup(s) ==> x !in s[1..];
      r
    else
      var r := Remove(s[1..], x);
      assert forall y :: y in s <==> y == s[0] || y in s[1..];
      assert s == [s[0]] + s[1..];
      assert NoDup(s) ==> s[0] !in s[1..] && NoDup(s[1..]);
      [s[0]] + r
  }

  /**
   * `toggleStarHost(name)` on the stored list (None when it does not parse):
   * the new list, or None when a fifth host would be starred (the source
   * then returns false and stores nothing).
   */
  function ToggleStar(stored: Option<seq<string>>, name: string): Option<seq<string>> {
    var starred := Dedup(stored.GetOr([]));
    if name in starred then Some(Remove(starred, name))
    else if |starred| >= MaxStarred then None
    else Some(starred + [name])
  }

  /**
   * A starred host is unstarred; an unstarred one is starred unless four are
   * already starred; the result never repeats a name, and never exceeds four
   * names when the stored list did not.
   */
  lemma {:induction false} ToggleStarSpec(stored: Option<seq<string>>, name: string)
    ensures var starred := Dedup(stored.GetOr([]));
      && (ToggleStar(stored, name).None? <==> name !in starred && |starred| >= MaxStarred)
      && (ToggleStar(stored, name).Some? ==>
            var r := ToggleStar(stored, name).value;
            && NoDup(r)
            && (name in r <==> name !in starred)
            && (forall x :: x != name ==> (x in r <==> x in starred))
            && (|starred| <= MaxStarred ==> |r| <= MaxStarred))
  {
    var starred := Dedup(stored.GetOr([]));
    if name !in starred {
      assert NoDup(starred + [name]);
    }
  }

  // ---------------------------------------------------------------- shortcuts

  datatype Shortcut = Shortcut(path: string, name: string)

  function ShortcutPaths(s: seq<Shortcut>): (r: seq<string>)
    ensures |r| == |s| && forall i :: 0 <= i < |s| ==> r[i] == s[i].path
  {
    seq(|s|, i requires 0 <= i < |s| => s[i].path)
  }

  /** `findIndex(s => s.path === path)`. */
  function IndexOfPath(s: seq<Shortcut>, path: string): (r: int)
    ensures -1 <= r < |s|
    ensures r >= 0 ==> s[r].path == path && forall j :: 0 <= j < r ==> s[j].path != path
    ensures r == -1 ==> forall j :: 0 <= j < |s| ==> s[j].path != path
  {
    FindIndex(s, (x: Shortcut) => x.path == path)
  }

  /**
   * The "Add to / Remove from Favorites" menu action: `isFavorited` was
   * decided when the menu opened; the list is the one stored when the item
   * is clicked.  Removing drops the first shortcut with the path (if any);
   * adding appends one.
   */
  function ToggleFavourite(current: seq<Shortcut>, path: string, name: string, isFavorited: bool): seq<Shortcut> {
    if isFavorited then
      var i := IndexOfPath(current, path);
      if i >= 0 then current[..i] + current[i + 1..] else current
    else current + [Shortcut(path, name)]
  }

  /**
   * When the list has not changed since the menu opened, the action flips
   * whether the path is a shortcut, leaves every other shortcut in place and
   * keeps the paths distinct.
   */
  lemma {:induction false} ToggleFavouriteFlips(current: seq<Shortcut>, path: string, name: string)
    requires NoDup(ShortcutPaths(current))
    ensures var r := ToggleFavourite(current, path, name, path in ShortcutPaths(current));
      && (path in ShortcutPaths(r) <==> path !in ShortcutPaths(current))
      && (forall p :: p != path ==> (p in ShortcutPaths(r) <==> p in ShortcutPaths(current)))
      && NoDup(ShortcutPaths(r))
  {
    var fav := path in ShortcutPaths(current);
    if fav {
      var i := IndexOfPath(current, path);
      assert ShortcutPaths(current[..i] + current[i + 1..]) == ShortcutPaths(current)[..i] + ShortcutPaths(current)[i + 1..];
      RemoveIndex(ShortcutPaths(current), i);
    } else {
      AppendShortcut(current, Shortcut(path, name));
    }
  }

  /** Taking out index `i` of a list without repeats takes out exactly its element. */
  lemma {:induction false} RemoveIndex(s: seq<string>, i: int)
    requires NoDup(s) && 0 <= i < |s|
    ensures NoDup(s[..i] + s[i + 1..])
    ensures s[i] !in s[..i] + s[i + 1..]
    ensures forall x :: x != s[i] ==> (x in s[..i] + s[i + 1..] <==> x in s)
  {
    var r := s[..i] + s[i + 1..];
    assert forall k :: 0 <= k < |r| ==> r[k] == (if k < i then s[k] else s[k + 1]);
    forall x | x in s && x != s[i]
      ensures x in r
    {
      var k :| 0 <= k < |s| && s[k] == x;
      if k < i { assert r[k] == x; } else { assert r[k - 1] == x; }
    }
  }

  /** Some directory column lists `p` as a folder: its path joined with a folder entry's name. */
  predicate IsListedDir(columns: seq<Column>, p: string) {
    exists i, j :: 0 <= i < |columns| && HasPath(columns[i]) && 0 <= j < |columns[i].kind.entries|
      && columns[i].kind.entries[j].isDir && JoinChild(columns[i].kind.path, columns[i].kind.entries[j].name) == p
  }

  /** The sidebar label of a dropped path: its last segment, or `/` when that is empty. */
  function ShortcutName(p: string): (r: string)
    ensures r != ""
  {
    if LastSegment(p) == "" then "/" else LastSegment(p)
  }

  /** The shortcuts a sidebar drop appends, in order. */
  function DroppedShortcuts(columns: seq<Column>, existing: seq<Shortcut>, paths: seq<string>): seq<Shortcut> {
    if paths == [] then []
    else
      var before := DroppedShortcuts(columns, existing, paths[..|paths| - 1]);
      var p := paths[|paths| - 1];
      if IsListedDir(columns, p) && p !in ShortcutPaths(existing + before)
      then before + [Shortcut(p, ShortcutName(p))]
      else before
  }

  /** Appending a shortcut appends its path; a new path keeps the paths distinct. */
  lemma {:induction false} AppendShortcut(list: seq<Shortcut>, s: Shortcut)
    ensures ShortcutPaths(list + [s]) == ShortcutPaths(list) + [s.path]
    ensures NoDup(ShortcutPaths(list)) && s.path !in ShortcutPaths(list) ==> NoDup(ShortcutPaths(list + [s]))
  {
    assert ShortcutPaths(list + [s]) == ShortcutPaths(list) + [s.path];
  }

  lemma {:induction false} PathsOfConcat(a: seq<Shortcut>, b: seq<Shortcut>)
    ensures ShortcutPaths(a + b) == ShortcutPaths(a) + ShortcutPaths(b)
  {
  }

  /** The paths stay distinct, and every appended shortcut is a new listed folder from the drop, under its label. */
  lemma {:induction false} DroppedShortcutsSound(columns: seq<Column>, existing: seq<Shortcut>, paths: seq<string>)
    requires NoDup(ShortcutPaths(existing))
    ensures NoDup(ShortcutPaths(existing + DroppedShortcuts(columns, existing, paths)))
    ensures forall s :: s in DroppedShortcuts(columns, existing, paths) ==>
      s.path in paths && IsListedDir(columns, s.path) && s.path !in ShortcutPaths(existing) && s.name == ShortcutName(s.path)
  {
    if paths != [] {
      var init := paths[..|paths| - 1];
      DroppedShortcutsSound(columns, existing, init);
      var before := DroppedShortcuts(columns, existing, init);
      var p := paths[|paths| - 1];
      assert forall q :: q in init ==> q in paths;
      if IsListedDir(columns, p) && p !in ShortcutPaths(existing + before) {
        var s := Shortcut(p, ShortcutName(p));
        assert existing + (before + [s]) == (existing + before) + [s];
        AppendShortcut(existing + before, s);
        PathsOfConcat(existing, before);
      }
    }
  }

  /** Every dropped path that a column lists as a folder is a shortcut afterwards. */
  lemma {:induction false} DroppedShortcutsComplete(columns: seq<Column>, existing: seq<Shortcut>, paths: seq<string>)
    ensures forall p :: p in paths && IsListedDir(columns, p) ==>
      p in ShortcutPaths(existing + DroppedShortcuts(columns, existing, paths))
  {
    if paths != [] {
      var init := paths[..|paths| - 1];
      DroppedShortcutsComplete(columns, existing, init);
      var before := DroppedShortcuts(columns, existing, init);
      var after := DroppedShortcuts(columns, existing, paths);
      var p := paths[|paths| - 1];
      assert forall q :: q in paths <==> q in init || q == p;
      PathsOfConcat(existing, before);
      if IsListedDir(columns, p) && p !in ShortcutPaths(existing + before) {
        var s := Shortcut(p, ShortcutName(p));
        assert after == before + [s];
        assert existing + after == (existing + before) + [s];
        AppendShortcut(existing + before, s);
      } else {
        assert after == before;
      }
    }
  }

  /**
   * The sidebar drop handler: each dropped path that a directory column lists
   * as a folder, and that is not a shortcut yet, is appended; the count is
   * what the notification reports.
   */
  method AddDroppedDirs(columns: seq<Column>, shortcuts: seq<Shortcut>, paths: seq<string>)
    returns (result: seq<Shortcut>, added: nat)
    ensures result == shortcuts + DroppedShortcuts(columns, shortcuts, paths)
    ensures added == |DroppedShortcuts(columns, shortcuts, paths)|
  {
    result := shortcuts;
    added := 0;
    var i := 0;
    while i < |paths|
      invariant 0 <= i <= |paths|
      invariant result == shortcuts + DroppedShortcuts(columns, shortcuts, paths[..i])
      invariant added == |DroppedShortcuts(columns, shortcuts, paths[..i])|
    {
      var p := paths[i];
      assert paths[..i + 1][..i] == paths[..i];
      if IsListedDir(columns, p) && p !in ShortcutPaths(result) {
        result := result + [Shortcut(p, ShortcutName(p))];
        added := added + 1;
      }
      i := i + 1;
    }
    assert paths[..|paths|] == paths;
  }
}
