/**
 * Character classes, trimming, case folding, ordering, splitting and joining of
 * strings, as the browser client (JavaScript) and the server (Python) use them.
 */
module Text {

  /** The code points JavaScript's String.prototype.trim removes: WhiteSpace and LineTerminator. */
  predicate IsJsSpace(c: char) {
    c == '\t' || c == '\n' || c == '\U{0b}' || c == '\U{0c}' || c == '\r' || c == ' '
    || c == '\U{a0}' || c == '\U{1680}' || ('\U{2000}' <= c <= '\U{200a}')
    || c == '\U{2028}' || c == '\U{2029}' || c == '\U{202f}' || c == '\U{205f}'
    || c == '\U{3000}' || c == '\U{feff}'
  }

  /** The code points for which Python's str.isspace holds, the set str.strip() removes. */
  predicate IsPySpace(c: char) {
    ('\t' <= c <= '\r') || ('\U{1c}' <= c <= '\U{1f}') || c == ' ' || c == '\U{85}'
    || c == '\U{a0}' || c == '\U{1680}' || ('\U{2000}' <= c <= '\U{200a}')
    || c == '\U{2028}' || c == '\U{2029}' || c == '\U{202f}' || c == '\U{205f}'
    || c == '\U{3000}'
  }

  /** Number of leading characters of `s` for which `space` holds. */
  function LeadingCount(s: string, space: char -> bool): (n: nat)
    ensures n <= |s|
    ensures forall i :: 0 <= i < n ==> space(s[i])
    ensures n < |s| ==> !space(s[n])
  {
    if s == [] || !space(s[0]) then 0 else 1 + LeadingCount(s[1..], space)
  }

  /** Number of trailing characters of `s` for which `space` holds. */
  function TrailingCount(s: string, space: char -> bool): (n: nat)
    ensures n <= |s|
    ensures forall i :: |s| - n <= i < |s| ==> space(s[i])
    ensures n < |s| ==> !space(s[|s| - 1 - n])
  {
    if s == [] || !space(s[|s| - 1]) then 0 else 1 + TrailingCount(s[..|s| - 1], space)
  }

  /** `s` without its leading and trailing `space` characters. */
  function TrimBy(s: string, space: char -> bool): (r: string)
    ensures |r| <= |s|
    ensures r != [] ==> !space(r[0]) && !space(r[|r| - 1])
    ensures (forall i :: 0 <= i < |s| ==> !space(s[i])) ==> r == s
  {
    var lead := LeadingCount(s, space);
    if lead == |s| then [] else
      var trail := TrailingCount(s, space);
      s[lead..|s| - trail]
  }

  /** JavaScript's `str.trim()`. */
  function JsTrim(s: string): string {
    TrimBy(s, IsJsSpace)
  }

  /** Python's `str.strip()` with no argument. */
  function PyStrip(s: string): string {
    TrimBy(s, IsPySpace)
  }

  /** A string that neither starts nor ends with white space is its own strip. */
  lemma {:induction false} PyStripKeeps(x: string)
    requires x != [] && !IsPySpace(x[0]) && !IsPySpace(x[|x| - 1])
    ensures PyStrip(x) == x
  {
    assert LeadingCount(x, IsPySpace) == 0;
    assert TrailingCount(x, IsPySpace) == 0;
  }

  /** Stripping drops the line end a command prints after its last line. */
  lemma {:induction false} PyStripLineEnd(x: string)
    requires x != [] && !IsPySpace(x[0]) && !IsPySpace(x[|x| - 1])
    ensures PyStrip(x + "\n") == x
  {
    var s := x + "\n";
    assert s[0] == x[0];
    assert LeadingCount(s, IsPySpace) == 0;
    var n := TrailingCount(s, IsPySpace);
    assert IsPySpace(s[|s| - 1]);
    assert s[|s| - 2] == x[|x| - 1];
    assert n == 1;
    assert s[..|s| - 1] == x;
  }

  /** ASCII case folding; the model's stand-in for toLowerCase() and str.lower(). */
  function LowerChar(c: char): char {
    if 'A' <= c <= 'Z' then (c as int + 32) as char else c
  }

  function Lower(s: string): string {
    seq(|s|, i requires 0 <= i < |s| => LowerChar(s[i]))
  }

  /**
   * Three-way comparison of two strings by code points: negative, zero or
   * positive as `a` sorts before, equal to or after `b`.
   */
  function Compare(a: string, b: string): (r: int)
    ensures -1 <= r <= 1
    ensures r == 0 <==> a == b
  {
    if a == [] then (if b == [] then 0 else -1)
    else if b == [] then 1
    else if a[0] < b[0] then -1
    else if a[0] > b[0] then 1
    else
      var r := Compare(a[1..], b[1..]);
      assert r == 0 ==> a == [a[0]] + a[1..] == [b[0]] + b[1..] == b;
      r
  }

  lemma {:induction false} CompareAntisymmetric(a: string, b: string)
    ensures Compare(a, b) == -Compare(b, a)
  {
    if a != [] && b != [] && a[0] == b[0] {
      CompareAntisymmetric(a[1..], b[1..]);
    }
  }

  lemma {:induction false} CompareTransitive(a: string, b: string, c: string)
    requires Compare(a, b) <= 0 && Compare(b, c) <= 0
    ensures Compare(a, c) <= 0
  {
    if a != [] && b != [] && c != [] && a[0] == b[0] && b[0] == c[0] {
      CompareTransitive(a[1..], b[1..], c[1..]);
    }
  }

  /** Strict transitivity: the order is strict on its strict part. */
  lemma {:induction false} CompareStrictTransitive(a: string, b: string, c: string)
    requires Compare(a, b) <= 0 && Compare(b, c) <= 0
    requires Compare(a, b) < 0 || Compare(b, c) < 0
    ensures Compare(a, c) < 0
  {
    CompareTransitive(a, b, c);
    if Compare(a, c) == 0 {
      assert a == c;
      CompareAntisymmetric(a, b);
    }
  }

  /**
   * `s.split(sep)` in JavaScript and Python alike, for a one-character
   * separator: the fields between separators, always at least one.
   */
  function SplitOn(s: string, sep: char): (r: seq<string>)
    ensures |r| >= 1
    ensures forall k :: 0 <= k < |r| ==> sep !in r[k]
  {
    if s == [] then [""]
    else
      var rest := SplitOn(s[1..], sep);
      if s[0] == sep then [""] + rest else [[s[0]] + rest[0]] + rest[1..]
  }

  /** `d.join(parts)` in Python, `parts.join(d)` in JavaScript. */
  function JoinWith(parts: seq<string>, d: string): string {
    if |parts| == 0 then ""
    else if |parts| == 1 then parts[0]
    else parts[0] + d + JoinWith(parts[1..], d)
  }

  /** Splitting on a separator and joining with it again gives the string back. */
  lemma {:induction false} JoinSplit(s: string, sep: char)
    ensures JoinWith(SplitOn(s, sep), [sep]) == s
  {
    if s != [] {
      var rest := SplitOn(s[1..], sep);
      JoinSplit(s[1..], sep);
      if s[0] == sep {
        assert SplitOn(s, sep) == [""] + rest;
        assert ([""] + rest)[1..] == rest;
      } else {
        var r := SplitOn(s, sep);
        assert r == [[s[0]] + rest[0]] + rest[1..];
        if |rest| == 1 {
          assert r == [[s[0]] + rest[0]];
        } else {
          assert r[1..] == rest[1..];
          assert JoinWith(rest, [sep]) == rest[0] + [sep] + JoinWith(rest[1..], [sep]);
        }
      }
    }
  }

  /** Joining fields free of the separator and splitting again gives the fields back. */
  lemma {:induction false} SplitJoin(parts: seq<string>, sep: char)
    requires |parts| >= 1
    requires forall k :: 0 <= k < |parts| ==> sep !in parts[k]
    ensures SplitOn(JoinWith(parts, [sep]), sep) == parts
  {
    if |parts| == 1 {
      NoSeparatorSplit(parts[0], sep);
    } else {
      SplitJoin(parts[1..], sep);
      SplitAround(parts[0], JoinWith(parts[1..], [sep]), sep);
      assert JoinWith(parts, [sep]) == parts[0] + [sep] + JoinWith(parts[1..], [sep]);
      assert parts == [parts[0]] + parts[1..];
    }
  }

  /** A string without the separator is a single field. */
  lemma {:induction false} NoSeparatorSplit(s: string, sep: char)
    requires sep !in s
    ensures SplitOn(s, sep) == [s]
  {
    if s != [] {
      NoSeparatorSplit(s[1..], sep);
      assert [s[0]] + s[1..] == s;
    }
  }

  /** Splitting `a + sep + b` where `a` has no separator: `a` is the first field. */
  lemma {:induction false} SplitAround(a: string, b: string, sep: char)
    requires sep !in a
    ensures SplitOn(a + [sep] + b, sep) == [a] + SplitOn(b, sep)
  {
    if a == [] {
      assert [sep] + b == a + [sep] + b;
      assert ([sep] + b)[1..] == b;
    } else {
      SplitAround(a[1..], b, sep);
      assert (a + [sep] + b)[1..] == a[1..] + [sep] + b;
      assert [a[0]] + a[1..] == a;
    }
  }

  /** Splitting distributes over a separator: the fields of `a + sep + b`. */
  lemma {:induction false} SplitAppend(a: string, b: string, sep: char)
    ensures SplitOn(a + [sep] + b, sep) == SplitOn(a, sep) + SplitOn(b, sep)
  {
    if a == [] {
      assert a + [sep] + b == [sep] + b;
      SplitCons(sep, b, sep);
    } else {
      var c, t := a[0], a[1..];
      ConsAround(a, sep, b);
      SplitCons(c, t + [sep] + b, sep);
      SplitCons(c, t, sep);
      SplitAppend(t, b, sep);
      if c != sep {
        MergeHead(c, SplitOn(t, sep), SplitOn(b, sep));
      }
    }
  }

  lemma {:induction false} ConsAround(a: string, sep: char, b: string)
    requires a != []
    ensures a + [sep] + b == [a[0]] + (a[1..] + [sep] + b)
    ensures a == [a[0]] + a[1..]
  {
  }

  /** Gluing a character onto the first field commutes with appending more fields. */
  lemma {:induction false} MergeHead(c: char, ra: seq<string>, rb: seq<string>)
    requires ra != []
    ensures [[c] + (ra + rb)[0]] + (ra + rb)[1..] == ([[c] + ra[0]] + ra[1..]) + rb
  {
    assert (ra + rb)[1..] == ra[1..] + rb;
  }

  /** The fields of a text that starts with `c`. */
  lemma {:induction false} SplitCons(c: char, t: string, sep: char)
    ensures SplitOn([c] + t, sep) ==
      if c == sep then [""] + SplitOn(t, sep) else [[c] + SplitOn(t, sep)[0]] + SplitOn(t, sep)[1..]
  {
    assert ([c] + t)[0] == c && ([c] + t)[1..] == t;
  }

  /** The chunks of `chunks` one after another. */
  function Concat(chunks: seq<string>): string {
    if chunks == [] then "" else chunks[0] + Concat(chunks[1..])
  }

  /** The text after the last `/`: `s.split("/").pop()`, and `posixpath.basename`. */
  function LastSegment(s: string): (r: string)
    ensures '/' !in r
  {
    var fields := SplitOn(s, '/');
    fields[|fields| - 1]
  }

  /** The last segment of `dir + "/" + name` is `name` when the name has no `/`. */
  lemma {:induction false} LastSegmentOfChild(dir: string, name: string)
    requires '/' !in name
    ensures LastSegment(dir + "/" + name) == name
  {
    SplitAppend(dir, name, '/');
    NoSeparatorSplit(name, '/');
  }
}
