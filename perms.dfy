/**
 * The permission helpers of static/app.js: reading the nine permission
 * bits out of an `ls -l` style mode string, turning them into the octal
 * number sent to chmod, flipping one bit, describing them in words, and
 * escaping a path for a single-quoted JavaScript string.
 */
module Perms {
  import opened Wrappers
  import opened Text

  datatype Triple = Triple(r: bool, w: bool, x: bool)

  datatype Bits = Bits(owner: Triple, group: Triple, others: Triple)

  datatype Who = Owner | Group | Others

  datatype Perm = Read | Write | Exec

  /**
   * `parseModeBits`: None (the empty object) for a mode shorter than ten
   * characters; otherwise r and w are the letters themselves, and execute
   * counts `x`, `s` and `S` for owner and group and `x`, `t` and `T` for others.
   */
  function ParseModeBits(mode: string): Option<Bits> {
    if |mode| < 10 then None
    else Some(Bits(
      Triple(mode[1] == 'r', mode[2] == 'w', mode[3] in "xsS"),
      Triple(mode[4] == 'r', mode[5] == 'w', mode[6] in "xsS"),
      Triple(mode[7] == 'r', mode[8] == 'w', mode[9] in "xtT")))
  }

  function TripleValue(t: Triple): (n: nat)
    ensures n < 8
  {
    (if t.r then 4 else 0) + (if t.w then 2 else 0) + (if t.x then 1 else 0)
  }

  /** `permBitsToOctal`: 0 for the empty object, else owner, group and others as three octal digits. */
  function PermBitsToOctal(bits: Option<Bits>): (n: nat)
    ensures n < 512
  {
    match bits
    case None => 0
    case Some(b) => TripleValue(b.owner) * 64 + TripleValue(b.group) * 8 + TripleValue(b.others)
  }

  function TripleOf(n: nat): Triple
    requires n < 8
  {
    Triple(n >= 4, n % 4 >= 2, n % 2 == 1)
  }

  /** The nine permission bits of a mode number (its low nine bits). */
  function FromOctal(n: nat): Bits
    requires n < 512
  {
    Bits(TripleOf(n / 64), TripleOf(n / 8 % 8), TripleOf(n % 8))
  }

  lemma {:induction false} TripleRoundTrip(t: Triple, n: nat)
    requires n < 8
    ensures TripleOf(TripleValue(t)) == t
    ensures TripleValue(TripleOf(n)) == n
  {
  }

  lemma {:induction false} OctalDigits(a: nat, b: nat, c: nat)
    requires a < 8 && b < 8 && c < 8
    ensures (a * 64 + b * 8 + c) / 64 == a
    ensures (a * 64 + b * 8 + c) / 8 % 8 == b
    ensures (a * 64 + b * 8 + c) % 8 == c
  {
    var n := a * 64 + b * 8 + c;
    assert n / 8 == a * 8 + b;
  }

  lemma {:induction false} OctalSplit(n: nat)
    requires n < 512
    ensures n / 64 < 8 && n / 8 % 8 < 8 && n % 8 < 8
    ensures n == (n / 64) * 64 + (n / 8 % 8) * 8 + n % 8
  {
    assert n / 64 == (n / 8) / 8;
  }

  /** Every bit pattern has its own octal number, and every number below 512 is one. */
  lemma {:induction false} OctalRoundTrip(b: Bits, n: nat)
    requires n < 512
    ensures FromOctal(PermBitsToOctal(Some(b))) == b
    ensures PermBitsToOctal(Some(FromOctal(n))) == n
  {
    OctalDigits(TripleValue(b.owner), TripleValue(b.group), TripleValue(b.others));
    TripleRoundTrip(b.owner, 0);
    TripleRoundTrip(b.group, 0);
    TripleRoundTrip(b.others, 0);
    OctalSplit(n);
    TripleRoundTrip(b.owner, n / 64);
    TripleRoundTrip(b.owner, n / 8 % 8);
    TripleRoundTrip(b.owner, n % 8);
  }

  function Get(b: Bits, who: Who, perm: Perm): bool {
    var t := match who case Owner => b.owner case Group => b.group case Others => b.others;
    match perm case Read => t.r case Write => t.w case Exec => t.x
  }

  /** The weight of one permission bit in the octal number. */
  function BitOf(who: Who, perm: Perm): nat {
    (match who case Owner => 64 case Group => 8 case Others => 1)
    * (match perm case Read => 4 case Write => 2 case Exec => 1)
  }

  function SetPerm(t: Triple, perm: Perm, value: bool): Triple {
    match perm
    case Read => t.(r := value)
    case Write => t.(w := value)
    case Exec => t.(x := value)
  }

  /** `if (bits[who]) bits[who][perm] = value`. */
  function Toggle(bits: Option<Bits>, who: Who, perm: Perm, value: bool): Option<Bits> {
    match bits
    case None => None
    case Some(b) =>
      Some(match who
        case Owner => b.(owner := SetPerm(b.owner, perm, value))
        case Group => b.(group := SetPerm(b.group, perm, value))
        case Others => b.(others := SetPerm(b.others, perm, value)))
  }

  /** The mode `handleChmod` sends when a pill is clicked. */
  function ChmodMode(mode: string, who: Who, perm: Perm, value: bool): nat {
    PermBitsToOctal(Toggle(ParseModeBits(mode), who, perm, value))
  }

  /**
   * A click changes exactly the clicked bit of the mode as read: it is added
   * when switched on and removed when switched off, the others stay.  A mode
   * string too short to read sends 0.
   */
  lemma {:induction false} ChmodFlipsOneBit(mode: string, who: Who, perm: Perm, value: bool)
    ensures ParseModeBits(mode).None? ==> ChmodMode(mode, who, perm, value) == 0
    ensures ParseModeBits(mode).Some? ==>
      ChmodMode(mode, who, perm, value)
      == PermBitsToOctal(ParseModeBits(mode))
         - (if Get(ParseModeBits(mode).value, who, perm) then BitOf(who, perm) else 0)
         + (if value then BitOf(who, perm) else 0)
    ensures ParseModeBits(mode).Some? ==> Get(Toggle(ParseModeBits(mode), who, perm, value).value, who, perm) == value
  {
  }

  // ---------------------------------------------------------------- filemode

  function PermChar(on: bool, c: char): char {
    if on then c else '-'
  }

  /**
   * The nine characters `stat.filemode` writes for the permission bits of a
   * mode without set-id or sticky bits.
   */
  function PermString(n: nat): (s: string)
    requires n < 512
    ensures |s| == 9
  {
    var b := FromOctal(n);
    [PermChar(b.owner.r, 'r'), PermChar(b.owner.w, 'w'), PermChar(b.owner.x, 'x'),
     PermChar(b.group.r, 'r'), PermChar(b.group.w, 'w'), PermChar(b.group.x, 'x'),
     PermChar(b.others.r, 'r'), PermChar(b.others.w, 'w'), PermChar(b.others.x, 'x')]
  }

  /** Reading back the mode string of a plain mode gives its permission bits. */
  lemma {:induction false} ParsePermString(kind: char, n: nat)
    requires n < 512
    ensures ParseModeBits([kind] + PermString(n)) == Some(FromOctal(n))
    ensures PermBitsToOctal(ParseModeBits([kind] + PermString(n))) == n
  {
    OctalRoundTrip(FromOctal(n), n);
  }

  /**
   * A set-user-id file without owner execute (filemode writes `S`) is read
   * as owner-executable: its mode reads as 0o744 although its permission
   * bits are 0o644, so any pill click on it also turns owner execute on.
   */
  lemma {:induction false} SetIdWithoutExecReadsAsExec()
    ensures ParseModeBits("-rwSr--r--") == Some(Bits(Triple(true, true, true), Triple(true, false, false), Triple(true, false, false)))
    ensures PermBitsToOctal(ParseModeBits("-rwSr--r--")) == 0x1e4
    ensures ChmodMode("-rwSr--r--", Group, Write, true) == 0x1f4
  {
  }

  // ---------------------------------------------------------------- in words

  datatype Described = Described(owner: string, group: string, others: string)

  /** The phrases `humanizePermissions` lists for one class, in order. */
  function Phrases(r: char, w: char, x: char): seq<string> {
    (if r == 'r' then ["Read"] else [])
    + (if w == 'w' then ["Write"] else [])
    + (if x == 'x' || x == 's' || x == 't' then ["Execute"] else [])
    + (if x == 'S' || x == 'T' then ["Set ID (no exec)"] else [])
  }

  function Describe(r: char, w: char, x: char): string {
    var parts := Phrases(r, w, x);
    if parts == [] then "None" else JoinWith(parts, ", ")
  }

  /** `humanizePermissions`: a short mode is shown as is (or `--`) for the owner and `--` for the rest. */
  function HumanizePermissions(mode: string): Described {
    if |mode| < 10 then Described(if mode == "" then "--" else mode, "--", "--")
    else Described(Describe(mode[1], mode[2], mode[3]), Describe(mode[4], mode[5], mode[6]), Describe(mode[7], mode[8], mode[9]))
  }

  /** Which phrases a class gets, one letter at a time. */
  lemma {:induction false} PhrasesOf(r: char, w: char, x: char)
    ensures "Read" in Phrases(r, w, x) <==> r == 'r'
    ensures "Write" in Phrases(r, w, x) <==> w == 'w'
    ensures "Execute" in Phrases(r, w, x) <==> x == 'x' || x == 's' || x == 't'
    ensures "Set ID (no exec)" in Phrases(r, w, x) <==> x == 'S' || x == 'T'
  {
    assert "Read" != "Write" && "Read" != "Execute" && "Read" != "Set ID (no exec)";
    assert "Write" != "Execute" && "Write" != "Set ID (no exec)" && "Execute" != "Set ID (no exec)";
  }

  /**
   * The words and the bits agree on read and write always; on execute they
   * agree except that `S` (owner, group) and `T` (others) count as execute for
   * the bits but are described as "Set ID (no exec)", and a `t` for the owner
   * or group or an `s` for others is the other way round.
   */
  lemma {:induction false} PhrasesAgreeWithBits(mode: string)
    requires |mode| >= 10
    ensures var b := ParseModeBits(mode).value;
      && ("Read" in Phrases(mode[1], mode[2], mode[3]) <==> b.owner.r)
      && ("Write" in Phrases(mode[1], mode[2], mode[3]) <==> b.owner.w)
      && ("Read" in Phrases(mode[7], mode[8], mode[9]) <==> b.others.r)
      && ("Write" in Phrases(mode[7], mode[8], mode[9]) <==> b.others.w)
      && (mode[3] != 'S' && mode[3] != 't' ==> ("Execute" in Phrases(mode[1], mode[2], mode[3]) <==> b.owner.x))
      && (mode[6] != 'S' && mode[6] != 't' ==> ("Execute" in Phrases(mode[4], mode[5], mode[6]) <==> b.group.x))
      && (mode[9] != 'T' && mode[9] != 's' ==> ("Execute" in Phrases(mode[7], mode[8], mode[9]) <==> b.others.x))
      && (mode[3] == 'S' ==> b.owner.x && "Execute" !in Phrases(mode[1], mode[2], mode[3]))
      && (mode[9] == 'T' ==> b.others.x && "Execute" !in Phrases(mode[7], mode[8], mode[9]))
  {
    PhrasesOf(mode[1], mode[2], mode[3]);
    PhrasesOf(mode[4], mode[5], mode[6]);
    PhrasesOf(mode[7], mode[8], mode[9]);
  }

  // ---------------------------------------------------------------- escapeAttr

  /** `escapeAttr`: every backslash doubled, then every single quote preceded by a backslash. */
  function EscapeAttr(s: string): (r: string)
    ensures |r| >= |s|
  {
    if s == [] then []
    else (if s[0] == '\\' then "\\\\" else if s[0] == '\'' then "\\'" else [s[0]]) + EscapeAttr(s[1..])
  }

  /**
   * How the body of a single-quoted JavaScript string literal reads: a
   * backslash takes the next character literally (for the escapes used
   * here), and an unescaped quote would end the literal early (None).
   */
  function ReadSingleQuoted(s: string): Option<string> {
    if s == [] then Some([])
    else if s[0] == '\\' then
      if |s| >= 2 && (s[1] == '\\' || s[1] == '\'') then
        match ReadSingleQuoted(s[2..]) { case None => None case Some(w) => Some([s[1]] + w) }
      else None
    else if s[0] == '\'' || s[0] == '\n' || s[0] == '\r' then None
    else match ReadSingleQuoted(s[1..]) { case None => None case Some(w) => Some([s[0]] + w) }
  }

  /** A path without line breaks survives the round trip through the `onclick` string literal. */
  lemma {:induction false} EscapeAttrRoundTrip(s: string)
    requires '\n' !in s && '\r' !in s
    ensures ReadSingleQuoted(EscapeAttr(s)) == Some(s)
  {
    if s != [] {
      EscapeAttrRoundTrip(s[1..]);
      var rest := EscapeAttr(s[1..]);
      var head := if s[0] == '\\' then "\\\\" else if s[0] == '\'' then "\\'" else [s[0]];
      assert EscapeAttr(s) == head + rest;
      if |head| == 2 {
        assert (head + rest)[2..] == rest;
      } else {
        assert (head + rest)[1..] == rest;
      }
      assert [s[0]] + s[1..] == s;
    }
  }
}
