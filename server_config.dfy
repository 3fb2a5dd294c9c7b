/**
 * The server's view of ~/.ssh/config (app.py): the host list the connect
 * dialog offers (parse_ssh_config) and the block save_host appends for a
 * new host.
 */
module SshHosts {
  import opened Wrappers
  import opened Text
  import opened Decimal
  import opened Sorting

  // ------------------------------------------------------------ host list

  /**
   * What the parsed config answers for one host name (`config.lookup(name)`):
   * the options it sets, the port still as the text of the config file.
   */
  datatype HostOptions = HostOptions(
    hostname: Option<string>,
    user: Option<string>,
    port: Option<string>,
    identityFiles: seq<string>)

  /** One entry of the host list. */
  datatype Host = Host(name: string, hostname: string, user: string, port: int, identityFile: string)

  /** A `Host` line's name with a glob character is a pattern, not a host one can connect to. */
  predicate IsPattern(name: string) {
    '*' in name || '?' in name
  }

  /**
   * The entry for `name`: HostName defaults to the name, User to `$USER`,
   * Port to 22, and the key is the first IdentityFile.  None when the port
   * is not a number, where `int()` raises.
   */
  function HostOf(name: string, o: HostOptions, envUser: string): (r: Option<Host>)
    ensures r.Some? ==> r.value.name == name
    ensures r.None? <==> o.port.Some? && ParsePyInt(o.port.value).None?
  {
    var port := if o.port.Some? then ParsePyInt(o.port.value) else Some(22);
    if port.None? then None
    else Some(Host(name, o.hostname.GetOr(name), o.user.GetOr(envUser), port.value,
                   if |o.identityFiles| > 0 then o.identityFiles[0] else ""))
  }

  /** The entries for `names` in their order, patterns skipped; None once a port fails to parse. */
  function Collected(names: seq<string>, lookup: string -> HostOptions, envUser: string): Option<seq<Host>> {
    if names == [] then Some([])
    else
      var init := Collected(names[..|names| - 1], lookup, envUser);
      var name := names[|names| - 1];
      if init.None? then None
      else if IsPattern(name) then init
      else match HostOf(name, lookup(name), envUser)
        case None => None
        case Some(h) => Some(init.value + [h])
  }

  /** Python compares the `name` keys by code points. */
  function ByName(): (Host, Host) -> int {
    (a: Host, b: Host) => Compare(a.name, b.name)
  }

  /** The host list: the collected entries sorted by name. */
  function HostList(names: seq<string>, lookup: string -> HostOptions, envUser: string): Option<seq<Host>> {
    match Collected(names, lookup, envUser)
    case None => None
    case Some(hs) => Some(SortBy(hs, ByName()))
  }

  /**
   * parse_ssh_config over the host names of the config (`names`, in the
   * order the config hands them out) and its answers (`lookup`); None
   * stands for the ValueError an unparsable port raises.
   */
  method ParseSshConfig(names: seq<string>, lookup: string -> HostOptions, envUser: string)
    returns (hosts: Option<seq<Host>>)
    ensures hosts == HostList(names, lookup, envUser)
  {
    var acc: seq<Host> := [];
    var i := 0;
    while i < |names|
      invariant 0 <= i <= |names|
      invariant Collected(names[..i], lookup, envUser) == Some(acc)
    {
      var name := names[i];
      assert names[..i + 1][..i] == names[..i];
      if !IsPattern(name) {
        var h := HostOf(name, lookup(name), envUser);
        if h.None? {
          CollectedNoneStays(names, i + 1, lookup, envUser);
          return None;
        }
        acc := acc + [h.value];
      }
      i := i + 1;
    }
    assert names[..|names|] == names;
    return Some(SortBy(acc, ByName()));
  }

  lemma {:induction false} CollectedNoneStays(names: seq<string>, j: int, lookup: string -> HostOptions, envUser: string)
    requires 0 <= j <= |names|
    requires Collected(names[..j], lookup, envUser).None?
    ensures Collected(names, lookup, envUser).None?
    decreases |names| - j
  {
    if j < |names| {
      assert names[..j + 1][..j] == names[..j];
      CollectedNoneStays(names, j + 1, lookup, envUser);
    } else {
      assert names[..j] == names;
    }
  }

  /**
   * The entries collected are exactly those of the names that are not
   * patterns, and collecting fails exactly when one of those has a bad port.
   */
  lemma {:induction false} CollectedSpec(names: seq<string>, lookup: string -> HostOptions, envUser: string)
    ensures Collected(names, lookup, envUser).Some? <==>
      forall k :: 0 <= k < |names| && !IsPattern(names[k]) ==> HostOf(names[k], lookup(names[k]), envUser).Some?
    ensures Collected(names, lookup, envUser).Some? ==>
      forall h :: h in Collected(names, lookup, envUser).value ==>
        h.name in names && !IsPattern(h.name) && HostOf(h.name, lookup(h.name), envUser) == Some(h)
    ensures Collected(names, lookup, envUser).Some? ==>
      forall k :: 0 <= k < |names| && !IsPattern(names[k]) ==>
        HostOf(names[k], lookup(names[k]), envUser).value in Collected(names, lookup, envUser).value
  {
    if names != [] {
      var init := names[..|names| - 1];
      var name := names[|names| - 1];
      CollectedSpec(init, lookup, envUser);
      assert names == init + [name];
      assert forall k :: 0 <= k < |init| ==> names[k] == init[k];
    }
  }

  lemma {:induction false} ByNameConsistent()
    ensures Consistent(ByName())
  {
    var cmp := ByName();
    forall a: Host, b: Host
      ensures cmp(a, b) < 0 <==> cmp(b, a) > 0
    {
      CompareAntisymmetric(a.name, b.name);
    }
    forall a: Host, b: Host, c: Host | cmp(a, b) <= 0 && cmp(b, c) <= 0
      ensures cmp(a, c) <= 0
    {
      CompareTransitive(a.name, b.name, c.name);
    }
  }

  /**
   * What the connect dialog is offered: no patterns, every concrete host of
   * the config once per mention with the options the config gives it, in
   * name order; and a config with a non-numeric port for a concrete host
   * gives no list at all.
   */
  lemma {:induction false} HostListSpec(names: seq<string>, lookup: string -> HostOptions, envUser: string)
    ensures HostList(names, lookup, envUser).Some? <==>
      forall k :: 0 <= k < |names| && !IsPattern(names[k]) ==> HostOf(names[k], lookup(names[k]), envUser).Some?
    ensures HostList(names, lookup, envUser).Some? ==> SortedBy(HostList(names, lookup, envUser).value, ByName())
    ensures HostList(names, lookup, envUser).Some? ==>
      forall h :: h in HostList(names, lookup, envUser).value ==>
        h.name in names && !IsPattern(h.name) && HostOf(h.name, lookup(h.name), envUser) == Some(h)
    ensures HostList(names, lookup, envUser).Some? ==>
      forall k :: 0 <= k < |names| && !IsPattern(names[k]) ==>
        HostOf(names[k], lookup(names[k]), envUser).value in HostList(names, lookup, envUser).value
  {
    CollectedSpec(names, lookup, envUser);
    var c := Collected(names, lookup, envUser);
    if c.Some? {
      var r := SortBy(c.value, ByName());
      ByNameConsistent();
      SortSorted(c.value, ByName());
      assert multiset(r) == multiset(c.value);
      forall h | h in r ensures h in c.value {
        assert h in multiset(r);
      }
      forall h | h in c.value ensures h in r {
        assert h in multiset(c.value);
      }
    }
  }

  // ------------------------------------------------------------ new host block

  /** The `port` field of the save request: absent, a JSON number, or text. */
  datatype PortField = NoPort | PortNumber(n: int) | PortText(text: string)

  /** `int(data.get("port", 22))`; None where int() raises. */
  function PortValue(p: PortField): Option<int> {
    match p
    case NoPort => Some(22)
    case PortNumber(n) => Some(n)
    case PortText(s) => ParsePyInt(s)
  }

  /**
   * What save_host does: an error that escapes (the port), a rejection with
   * its message, or the lines it appends to the config file.
   */
  datatype SaveOutcome = Crashed | Rejected(message: string) | Appended(lines: seq<string>)

  /** The text lines of the block, without their line ends; `Host` and `HostName` always. */
  function BlockFields(alias: string, hostname: string, username: string, port: int, keyFile: string): (fs: seq<string>)
    ensures |fs| >= 2
  {
    ["Host " + alias, "    HostName " + hostname]
    + (if username != "" then ["    User " + username] else [])
    + (if port != 22 then ["    Port " + IntToString(port)] else [])
    + (if keyFile != "" then ["    IdentityFile " + keyFile] else [])
  }

  /** Each line with its line end. */
  function Terminated(fs: seq<string>): (r: seq<string>)
    ensures |r| == |fs|
  {
    seq(|fs|, i requires 0 <= i < |fs| => fs[i] + "\n")
  }

  /**
   * save_host: the fields are stripped and the port converted first; alias
   * and hostname are required; an alias the config already names
   * (`existing`, empty when there is no config file) is refused; otherwise
   * the lines appended are a blank line and the block, with User, Port and
   * IdentityFile only when they differ from the defaults.
   */
  method SaveHost(alias: string, hostname: string, username: string, port: PortField, keyFile: string,
                  existing: seq<string>) returns (outcome: SaveOutcome)
    ensures outcome.Crashed? <==> PortValue(port).None?
    ensures outcome.Rejected? <==>
      (PortValue(port).Some? && (PyStrip(alias) == "" || PyStrip(hostname) == "" || PyStrip(alias) in existing))
    ensures outcome.Rejected? ==>
      (outcome.message == if PyStrip(alias) == "" || PyStrip(hostname) == "" then "Name and hostname are required"
                          else "Host '" + PyStrip(alias) + "' already exists")
    ensures outcome.Appended? ==> outcome.lines == ["\n"] + Terminated(
      BlockFields(PyStrip(alias), PyStrip(hostname), PyStrip(username), PortValue(port).value, PyStrip(keyFile)))
  {
    var a := PyStrip(alias);
    var h := PyStrip(hostname);
    var u := PyStrip(username);
    var p := PortValue(port);
    var k := PyStrip(keyFile);
    if p.None? {
      return Crashed;
    }
    if a == "" || h == "" {
      return Rejected("Name and hostname are required");
    }
    if a in existing {
      return Rejected("Host '" + a + "' already exists");
    }
    var lines := ["\n", "Host " + a + "\n", "    HostName " + h + "\n"];
    ghost var fields := ["Host " + a, "    HostName " + h];
    assert lines == ["\n"] + Terminated(fields);
    lines := AppendField(lines, fields, u != "", "    User " + u);
    fields := fields + (if u != "" then ["    User " + u] else []);
    lines := AppendField(lines, fields, p.value != 22, "    Port " + IntToString(p.value));
    fields := fields + (if p.value != 22 then ["    Port " + IntToString(p.value)] else []);
    lines := AppendField(lines, fields, k != "", "    IdentityFile " + k);
    fields := fields + (if k != "" then ["    IdentityFile " + k] else []);
    assert fields == BlockFields(a, h, u, p.value, k);
    return Appended(lines);
  }

  /** `lines.append(field + "\n")` when the field is written, after the blank line and the fields so far. */
  method AppendField(lines: seq<string>, ghost fields: seq<string>, write: bool, field: string)
    returns (r: seq<string>)
    requires lines == ["\n"] + Terminated(fields)
    ensures r == ["\n"] + Terminated(fields + if write then [field] else [])
  {
    r := lines;
    if write {
      TerminatedSnoc(fields, field);
      r := lines + [field + "\n"];
    } else {
      assert fields + [] == fields;
    }
  }

  /** A host block as a reader of the config file sees it, defaults filled in. */
  datatype SavedHost = SavedHost(alias: string, hostname: string, user: string, port: int, keyFile: string)

  /** The rest of `line` after `prefix`, when it starts with it. */
  function ValueAfter(line: string, prefix: string): (r: Option<string>)
    ensures r.Some? ==> line == prefix + r.value
  {
    if |line| >= |prefix| && line[..|prefix|] == prefix then
      assert line == line[..|prefix|] + line[|prefix|..];
      Some(line[|prefix|..])
    else None
  }

  /** The value of an optional first line that starts with `prefix` ("" when absent), and the lines after it. */
  function Optional(fs: seq<string>, prefix: string): (string, seq<string>) {
    if |fs| > 0 && ValueAfter(fs[0], prefix).Some? then (ValueAfter(fs[0], prefix).value, fs[1..]) else ("", fs)
  }

  /** Reads the lines of a block laid out as save_host writes it. */
  function ReadFields(fs: seq<string>): Option<SavedHost> {
    if |fs| < 2 || ValueAfter(fs[0], "Host ").None? || ValueAfter(fs[1], "    HostName ").None? then None
    else
      var (user, r1) := Optional(fs[2..], "    User ");
      var (portText, r2) := Optional(r1, "    Port ");
      var (key, r3) := Optional(r2, "    IdentityFile ");
      var port := if portText == "" then Some(22) else ParsePyInt(portText);
      if r3 != [] || port.None? then None
      else Some(SavedHost(ValueAfter(fs[0], "Host ").value, ValueAfter(fs[1], "    HostName ").value,
                          user, port.value, key))
  }

  /** Reads the text appended to the config file: a blank line, then the block. */
  function ReadBlock(text: string): Option<SavedHost> {
    var fields := SplitOn(text, '\n');
    if |fields| < 4 || fields[0] != "" || fields[|fields| - 1] != "" then None
    else ReadFields(fields[1..|fields| - 1])
  }

  lemma {:induction false} TerminatedJoin(fs: seq<string>)
    ensures Concat(Terminated(fs)) == JoinWith(fs + [""], "\n")
  {
    if fs != [] {
      TerminatedJoin(fs[1..]);
      assert Terminated(fs)[1..] == Terminated(fs[1..]);
      assert (fs + [""])[1..] == fs[1..] + [""];
    }
  }

  lemma {:induction false} TerminatedSnoc(fs: seq<string>, f: string)
    ensures Terminated(fs + [f]) == Terminated(fs) + [f + "\n"]
  {
  }

  lemma {:induction false} ValueAfterPrefix(prefix: string, v: string)
    ensures ValueAfter(prefix + v, prefix) == Some(v)
  {
    assert (prefix + v)[..|prefix|] == prefix;
    assert (prefix + v)[|prefix|..] == v;
  }

  lemma {:induction false} OptionalPresent(fs: seq<string>, prefix: string, v: string)
    requires fs != [] && fs[0] == prefix + v
    ensures Optional(fs, prefix) == (v, fs[1..])
  {
    ValueAfterPrefix(prefix, v);
  }

  lemma {:induction false} OptionalAbsent(fs: seq<string>, prefix: string)
    requires |prefix| > 4
    requires fs != [] ==> |fs[0]| > 4 && fs[0][4] != prefix[4]
    ensures Optional(fs, prefix) == ("", fs)
  {
    if fs != [] && |fs[0]| >= |prefix| {
      assert fs[0][..|prefix|][4] != prefix[4];
    }
  }

  lemma {:induction false} UserTail(u: string, rest: seq<string>)
    requires rest != [] ==> |rest[0]| > 4 && (rest[0][4] == 'P' || rest[0][4] == 'I')
    ensures Optional((if u != "" then ["    User " + u] else []) + rest, "    User ") == (u, rest)
  {
    var fs := (if u != "" then ["    User " + u] else []) + rest;
    if u != "" {
      OptionalPresent(fs, "    User ", u);
      assert fs[1..] == rest;
    } else {
      assert fs == rest;
      OptionalAbsent(rest, "    User ");
    }
  }

  lemma {:induction false} PortTail(p: int, rest: seq<string>)
    requires rest != [] ==> |rest[0]| > 4 && rest[0][4] == 'I'
    ensures var fs := (if p != 22 then ["    Port " + IntToString(p)] else []) + rest;
      && (fs != [] ==> |fs[0]| > 4 && (fs[0][4] == 'P' || fs[0][4] == 'I'))
      && Optional(fs, "    Port ") == (if p != 22 then IntToString(p) else "", rest)
  {
    var fs := (if p != 22 then ["    Port " + IntToString(p)] else []) + rest;
    if p != 22 {
      assert fs[0] == "    Port " + IntToString(p);
      assert fs[0][4] == 'P';
      OptionalPresent(fs, "    Port ", IntToString(p));
      assert fs[1..] == rest;
    } else {
      assert fs == rest;
      OptionalAbsent(rest, "    Port ");
    }
  }

  lemma {:induction false} KeyTail(k: string)
    ensures var fs := if k != "" then ["    IdentityFile " + k] else [];
      && (fs != [] ==> |fs[0]| > 4 && fs[0][4] == 'I')
      && Optional(fs, "    IdentityFile ") == (k, [])
  {
    if k != "" {
      assert ("    IdentityFile " + k)[4] == 'I';
      OptionalPresent(["    IdentityFile " + k], "    IdentityFile ", k);
      assert ["    IdentityFile " + k][1..] == [];
    }
  }

  lemma {:induction false} ReadBlockFields(a: string, h: string, u: string, p: int, k: string)
    ensures ReadFields(BlockFields(a, h, u, p, k)) == Some(SavedHost(a, h, u, p, k))
  {
    var fs := BlockFields(a, h, u, p, k);
    var f2 := if p != 22 then ["    Port " + IntToString(p)] else [];
    var f3 := if k != "" then ["    IdentityFile " + k] else [];
    BlockFieldsShape(a, h, u, p, k);
    ValueAfterPrefix("Host ", a);
    ValueAfterPrefix("    HostName ", h);
    KeyTail(k);
    PortTail(p, f3);
    UserTail(u, f2 + f3);
    var portText := if p != 22 then IntToString(p) else "";
    assert (if portText == "" then Some(22) else ParsePyInt(portText)) == Some(p) by {
      IntRoundTrip(p);
    }
  }

  /** The two required fields come first, then the optional ones in order. */
  lemma {:induction false} BlockFieldsShape(a: string, h: string, u: string, p: int, k: string)
    ensures var fs := BlockFields(a, h, u, p, k);
      && fs[0] == "Host " + a && fs[1] == "    HostName " + h
      && fs[2..] == (if u != "" then ["    User " + u] else [])
                    + ((if p != 22 then ["    Port " + IntToString(p)] else [])
                       + (if k != "" then ["    IdentityFile " + k] else []))
  {
  }

  /** A blank line and then the fields, each ended, read back as the fields when none holds a line break. */
  lemma {:induction false} ReadBlockText(fs: seq<string>)
    requires |fs| >= 2
    requires forall i :: 0 <= i < |fs| ==> '\n' !in fs[i]
    ensures ReadBlock(Concat(["\n"] + Terminated(fs))) == ReadFields(fs)
  {
    var lines := ["\n"] + Terminated(fs);
    assert lines[1..] == Terminated(fs);
    assert Concat(lines) == "\n" + Concat(Terminated(fs));
    TerminatedJoin(fs);
    var parts := [""] + fs + [""];
    assert parts[1..] == fs + [""];
    assert JoinWith(parts, "\n") == "" + "\n" + JoinWith(fs + [""], "\n");
    assert forall i :: 0 <= i < |parts| ==> '\n' !in parts[i];
    SplitJoin(parts, '\n');
    assert parts[1..|parts| - 1] == fs;
  }

  /**
   * The block reads back as the host it was built from, defaults where
   * nothing was written, as long as no field holds a line break.
   */
  lemma {:induction false} BlockRoundTrip(alias: string, hostname: string, user: string, port: int, keyFile: string)
    requires '\n' !in alias && '\n' !in hostname && '\n' !in user && '\n' !in keyFile
    ensures ReadBlock(Concat(["\n"] + Terminated(BlockFields(alias, hostname, user, port, keyFile))))
      == Some(SavedHost(alias, hostname, user, port, keyFile))
  {
    NatDigitsHaveNoBreak(port);
    NoBreakInFields(alias, hostname, user, port, keyFile);
    ReadBlockText(BlockFields(alias, hostname, user, port, keyFile));
    ReadBlockFields(alias, hostname, user, port, keyFile);
  }

  lemma {:induction false} NoBreakInFields(a: string, h: string, u: string, p: int, k: string)
    requires '\n' !in a && '\n' !in h && '\n' !in u && '\n' !in k && '\n' !in IntToString(p)
    ensures forall i :: 0 <= i < |BlockFields(a, h, u, p, k)| ==> '\n' !in BlockFields(a, h, u, p, k)[i]
  {
  }

  lemma {:induction false} NatDigitsHaveNoBreak(n: int)
    ensures '\n' !in IntToString(n)
  {
    var digits := NatToString(if n < 0 then -n else n);
    assert AllDigits(digits);
    assert !IsDigit('\n');
  }
}
