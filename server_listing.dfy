/**
 * The directory listing endpoint of the server (list_directory in app.py):
 * one entry record per SFTP attribute set, folders first and then by
 * lower-cased name, the order the client's default name sort keeps.
 */
module Listing {
  import opened Wrappers
  import opened Text
  import opened Sorting
  import opened Entries
  import opened Paths

  /** One item of `sftp.listdir_attr(path)`; attributes the server did not send are None. */
  datatype Attr = Attr(filename: string, stMode: Option<nat>, stSize: Option<int>, stMtime: Option<int>)

  /** Python truthiness of an optional number: present and not zero. */
  predicate Truthy(o: Option<int>) {
    o.Some? && o.value != 0
  }

  /** The value when it is truthy, 0 otherwise (`x if x else 0`). */
  function OrZero(o: Option<int>): int {
    if Truthy(o) then o.value else 0
  }

  /** `stat.S_ISDIR`: the file-type bits (`mode & 0o170000`) are `0o040000`. */
  predicate IsDirMode(m: nat) {
    (m / 0x1000) % 16 == 4
  }

  /** `stat.S_ISLNK`: the file-type bits are `0o120000`. */
  predicate IsLinkMode(m: nat) {
    (m / 0x1000) % 16 == 10
  }

  /** The mode string of an entry whose mode the server did not send. */
  const UnknownMode := "?---------"

  /**
   * The record of one attribute set in directory `path`.  A link is a
   * folder when its target's mode (`targetMode` of the joined path; None
   * when the stat raises) is a folder's.  `filemode` stands for
   * `stat.filemode`.
   */
  function EntryOf(path: string, a: Attr, targetMode: string -> Option<nat>, filemode: nat -> string): Entry {
    var hasMode := Truthy(a.stMode);
    var isDir := if hasMode then IsDirMode(a.stMode.value) else false;
    var isLink := if hasMode then IsLinkMode(a.stMode.value) else false;
    var isDir :=
      if isLink then
        match targetMode(PosixJoin(path, a.filename))
        case Some(t) => IsDirMode(t)
        case None => isDir
      else isDir;
    Entry(a.filename, isDir, isLink, OrZero(a.stSize),
          if hasMode then filemode(a.stMode.value) else UnknownMode,
          OrZero(a.stMtime), None)
  }

  /**
   * The fields of a record: an absent or zero size or mtime reads 0; an
   * entry without a mode reads `?---------` and is neither a folder nor a
   * link; a folder is one by its own mode or, for a link, by its target's.
   */
  lemma {:induction false} EntryOfFields(path: string, a: Attr, targetMode: string -> Option<nat>, filemode: nat -> string)
    ensures var e := EntryOf(path, a, targetMode, filemode);
      && e.name == a.filename
      && (e.size == 0 <==> !Truthy(a.stSize) || a.stSize.value == 0)
      && (Truthy(a.stSize) ==> e.size == a.stSize.value)
      && (Truthy(a.stMtime) ==> e.mtime == a.stMtime.value)
      && (!Truthy(a.stMtime) ==> e.mtime == 0)
      && (!Truthy(a.stMode) ==> e.mode == UnknownMode && !e.isDir && !e.isLink)
      && (Truthy(a.stMode) ==> e.isLink == IsLinkMode(a.stMode.value))
      && (Truthy(a.stMode) && !e.isLink ==> e.isDir == IsDirMode(a.stMode.value))
      && (e.isLink ==> e.isDir == (targetMode(PosixJoin(path, a.filename)).Some?
                                    && IsDirMode(targetMode(PosixJoin(path, a.filename)).value)))
      && e.dirSize.None?
  {
    var e := EntryOf(path, a, targetMode, filemode);
    if e.isLink {
      assert IsLinkMode(a.stMode.value);
      assert !IsDirMode(a.stMode.value);
    }
  }

  /** `False < True`, as Python orders booleans. */
  function BoolCompare(x: bool, y: bool): int {
    if x == y then 0 else if !x then -1 else 1
  }

  /** The order of the sort key `(not is_dir, name.lower())`, compared as Python compares tuples. */
  function KeyCompare(a: Entry, b: Entry): int {
    var first := BoolCompare(!a.isDir, !b.isDir);
    if first != 0 then first else Compare(Lower(a.name), Lower(b.name))
  }

  function KeyOrder(): (Entry, Entry) -> int {
    (a: Entry, b: Entry) => KeyCompare(a, b)
  }

  /** The records of `attrs` in their order. */
  function Records(path: string, attrs: seq<Attr>, targetMode: string -> Option<nat>, filemode: nat -> string)
    : (r: seq<Entry>)
    ensures |r| == |attrs|
  {
    seq(|attrs|, i requires 0 <= i < |attrs| => EntryOf(path, attrs[i], targetMode, filemode))
  }

  /** What `listdir_attr` did: listed the folder, or raised one of the errors the endpoint tells apart. */
  datatype DirRead = Read(attrs: seq<Attr>) | PermissionDenied | FileNotFound | OtherError(message: string)

  /** The endpoint's answer: the listing of `path`, or an HTTP status and message. */
  datatype ListResponse = Listing(path: string, entries: seq<Entry>) | Failure(status: int, message: string)

  /** The listing the endpoint returns for a folder that could be read. */
  function SortedListing(path: string, attrs: seq<Attr>, targetMode: string -> Option<nat>, filemode: nat -> string)
    : seq<Entry>
  {
    SortBy(Records(path, attrs, targetMode, filemode), KeyOrder())
  }

  /**
   * list_directory for the normalised `path`: the records built one by one,
   * then sorted; the listing errors become 403, 404 and 400 answers, and
   * without a connection the answer is 400.
   */
  method ListDirectory(connected: bool, path: string, read: DirRead,
                       targetMode: string -> Option<nat>, filemode: nat -> string)
    returns (response: ListResponse)
    ensures !connected ==> response == Failure(400, "Not connected")
    ensures connected && read.Read? ==> response == Listing(path, SortedListing(path, read.attrs, targetMode, filemode))
    ensures connected && read.PermissionDenied? ==> response == Failure(403, "Permission denied: " + path)
    ensures connected && read.FileNotFound? ==> response == Failure(404, "Not found: " + path)
    ensures connected && read.OtherError? ==> response == Failure(400, read.message)
  {
    if !connected {
      return Failure(400, "Not connected");
    }
    match read
    case PermissionDenied =>
      return Failure(403, "Permission denied: " + path);
    case FileNotFound =>
      return Failure(404, "Not found: " + path);
    case OtherError(message) =>
      return Failure(400, message);
    case Read(attrs) =>
      var entries: seq<Entry> := [];
      var i := 0;
      while i < |attrs|
        invariant 0 <= i <= |attrs|
        invariant entries == Records(path, attrs[..i], targetMode, filemode)
      {
        entries := entries + [EntryOf(path, attrs[i], targetMode, filemode)];
        i := i + 1;
      }
      assert attrs[..|attrs|] == attrs;
      return Listing(path, SortBy(entries, KeyOrder()));
  }

  /** The server's key order is the client's name order, ascending. */
  lemma {:induction false} KeyCompareIsNameOrder(a: Entry, b: Entry)
    ensures KeyCompare(a, b) == EntryCompare(ByName, true, a, b)
  {
  }

  lemma {:induction false} KeyOrderConsistent()
    ensures Consistent(KeyOrder())
  {
    EntryOrderConsistent(ByName, true);
    var e := EntryOrder(ByName, true);
    forall a: Entry, b: Entry
      ensures KeyOrder()(a, b) < 0 <==> KeyOrder()(b, a) > 0
    {
      assert e(a, b) < 0 <==> e(b, a) > 0;
    }
    forall a: Entry, b: Entry, c: Entry | KeyOrder()(a, b) <= 0 && KeyOrder()(b, c) <= 0
      ensures KeyOrder()(a, c) <= 0
    {
      assert e(a, b) <= 0 && e(b, c) <= 0 && e(a, c) == KeyOrder()(a, c);
    }
  }

  /**
   * The listing holds every record once, folders before files, and by
   * lower-cased name within each group.
   */
  lemma {:induction false} SortedListingSpec(path: string, attrs: seq<Attr>, targetMode: string -> Option<nat>, filemode: nat -> string)
    ensures var r := SortedListing(path, attrs, targetMode, filemode);
      && multiset(r) == multiset(Records(path, attrs, targetMode, filemode))
      && (forall i, j :: 0 <= i < j < |r| && r[j].isDir ==> r[i].isDir)
      && (forall i, j :: 0 <= i < j < |r| && r[i].isDir == r[j].isDir ==> Compare(Lower(r[i].name), Lower(r[j].name)) <= 0)
  {
    var r := SortedListing(path, attrs, targetMode, filemode);
    KeyOrderConsistent();
    SortSorted(Records(path, attrs, targetMode, filemode), KeyOrder());
    forall i, j | 0 <= i < j < |r|
      ensures r[j].isDir ==> r[i].isDir
      ensures r[i].isDir == r[j].isDir ==> Compare(Lower(r[i].name), Lower(r[j].name)) <= 0
    {
      assert KeyOrder()(r[i], r[j]) <= 0;
    }
  }

  /**
   * The client's default sort (by name, ascending) leaves the server's
   * listing as it is: the two orders agree on every pair of entries.
   */
  lemma {:induction false} ClientNameSortKeepsListing(path: string, attrs: seq<Attr>, targetMode: string -> Option<nat>,
                                   filemode: nat -> string)
    ensures var r := SortedListing(path, attrs, targetMode, filemode);
      SortEntries(r, ByName, true) == r
  {
    var r := SortedListing(path, attrs, targetMode, filemode);
    KeyOrderConsistent();
    SortSorted(Records(path, attrs, targetMode, filemode), KeyOrder());
    forall i, j | 0 <= i < j < |r|
      ensures EntryOrder(ByName, true)(r[i], r[j]) <= 0
    {
      assert KeyOrder()(r[i], r[j]) <= 0;
      KeyCompareIsNameOrder(r[i], r[j]);
    }
    SortOfSorted(r, EntryOrder(ByName, true));
  }
}
