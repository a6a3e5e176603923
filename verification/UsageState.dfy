/** The usage-state file: what persisting writes, loading recovers. */
module UsageState {
  import opened Metering
  import opened Values

  // ----- characters -----

  predicate Space(c: char) { c == ' ' || c == '\t' || c == '\n' || c == '\r' || c as int == 11 || c as int == 12 }

  predicate Digit(c: char) { '0' <= c <= '9' }

  predicate Alnum(c: char) { Digit(c) || 'a' <= c <= 'z' || 'A' <= c <= 'Z' }

  predicate IdentityChar(c: char) { Alnum(c) || c == '-' || c == '_' || c == '.' || c == '@' }

  predicate AllIdentity(s: string) { forall i :: 0 <= i < |s| ==> IdentityChar(s[i]) }

  // ----- trimming -----

  function TrimStart(s: string): string { if s != "" && Space(s[0]) then TrimStart(s[1..]) else s }

  function TrimEnd(s: string): string { if s != "" && Space(s[|s| - 1]) then TrimEnd(s[..|s| - 1]) else s }

  function Trim(s: string): string { TrimEnd(TrimStart(s)) }

  /** Text without blanks at its ends is left alone. */
  lemma TrimNothing(s: string)
    requires s != "" ==> !Space(s[0]) && !Space(s[|s| - 1])
    ensures Trim(s) == s
  {
  }

  /** White space is a blank, a tab, a line end or a feed. */
  predicate AllSpace(s: string) {
    forall i :: 0 <= i < |s| ==> s[i] in {' ', '\t', '\n', '\r'} || s[i] as int == 11 || s[i] as int == 12
  }

  lemma {:induction false} StartRest(s: string) returns (a: string)
    ensures s == a + TrimStart(s) && AllSpace(a)
    decreases |s|
  {
    a := "";
    if s != "" && Space(s[0]) {
      a := StartRest(s[1..]);
      a := [s[0]] + a;
    }
  }

  lemma {:induction false} EndRest(s: string) returns (b: string)
    ensures s == TrimEnd(s) + b && AllSpace(b)
    decreases |s|
  {
    b := "";
    if s != "" && Space(s[|s| - 1]) {
      b := EndRest(s[..|s| - 1]);
      b := b + [s[|s| - 1]];
    }
  }

  /** Trimming removes white space only. */
  lemma TrimRest(s: string) returns (a: string, b: string)
    ensures s == a + Trim(s) + b && AllSpace(a) && AllSpace(b)
  {
    hide AllSpace;
    a := StartRest(s);
    b := EndRest(TrimStart(s));
  }

  lemma {:induction false} TrimClean(s: string)
    ensures Trim(s) != "" ==> !Space(Trim(s)[0]) && !Space(Trim(s)[|Trim(s)| - 1])
  {
    StartClean(s);
    EndClean(TrimStart(s));
  }

  lemma {:induction false} StartClean(s: string)
    ensures TrimStart(s) != "" ==> !Space(TrimStart(s)[0])
    decreases |s|
  {
    if s != "" && Space(s[0]) {
      StartClean(s[1..]);
    }
  }

  lemma {:induction false} EndClean(s: string)
    ensures TrimEnd(s) != "" ==> TrimEnd(s)[0] == s[0] && !Space(TrimEnd(s)[|TrimEnd(s)| - 1])
    decreases |s|
  {
    if s != "" && Space(s[|s| - 1]) {
      EndClean(s[..|s| - 1]);
    }
  }

  // ----- identities -----

  const MAX_IDENTITY: nat := 128

  function Cleaned(s: string): (t: string)
    ensures |t| == |s| && forall i :: 0 <= i < |s| ==> t[i] == if IdentityChar(s[i]) then s[i] else '_'
  {
    seq(|s|, i requires 0 <= i < |s| => if IdentityChar(s[i]) then s[i] else '_')
  }

  /** Trimmed, cut to 128 characters, everything unusual replaced; the fallback when nothing is left. */
  function Sanitize(s: string, fallback: string): string {
    var t := Trim(s);
    if t == "" then fallback else Cleaned(if |t| > MAX_IDENTITY then t[..MAX_IDENTITY] else t)
  }

  /** The loop over the characters in place. */
  method SanitizeIdentity(s: string, fallback: string) returns (r: string)
    ensures r == Sanitize(s, fallback)
  {
    hide IdentityChar, Trim;
    var value := Trim(s);
    if value == "" {
      return fallback;
    }
    if |value| > MAX_IDENTITY {
      value := value[..MAX_IDENTITY];
    }
    ghost var start := value;
    var i := 0;
    while i < |value|
      invariant 0 <= i <= |value| == |start|
      invariant forall j :: 0 <= j < i ==> value[j] == Cleaned(start)[j]
      invariant forall j :: i <= j < |start| ==> value[j] == start[j]
    {
      if !IdentityChar(value[i]) {
        value := value[i := '_'];
      }
      i := i + 1;
    }
    assert value == Cleaned(start);
    return value;
  }

  /** A sanitised identity. */
  predicate Clean(s: string) { s != "" && |s| <= MAX_IDENTITY && AllIdentity(s) }

  lemma IdentityNotSpace(c: char)
    requires IdentityChar(c)
    ensures !Space(c) && c != ',' && c != '=' && c != '\n'
  {
  }

  lemma SanitizeKeeps(s: string, fallback: string)
    requires Clean(s)
    ensures Sanitize(s, fallback) == s
  {
    hide IdentityChar, Space;
    IdentityNotSpace(s[0]);
    IdentityNotSpace(s[|s| - 1]);
    TrimNothing(s);
    assert Cleaned(s) == s;
  }

  /** What sanitising makes of a text: of the first 128 characters left by trimming, letters, digits and
      - _ . @ stay and every other one becomes an underscore. */
  lemma SanitizeIs(s: string, fallback: string)
    ensures var t, r := Trim(s), Sanitize(s, fallback);
            if t == "" then r == fallback
            else |r| == (if |t| <= 128 then |t| else 128) &&
                 forall i :: 0 <= i < |r| ==>
                   r[i] == if 'a' <= t[i] <= 'z' || 'A' <= t[i] <= 'Z' || '0' <= t[i] <= '9' ||
                              t[i] in {'-', '_', '.', '@'}
                           then t[i] else '_'
  {
    hide Trim;
  }

  /** Sanitising twice is sanitising once, and no result holds a separator. */
  lemma SanitizeIdempotent(s: string, fallback: string)
    requires fallback == "" || Clean(fallback)
    ensures var r := Sanitize(s, fallback);
            (r == "" || Clean(r)) && Sanitize(r, fallback) == (if r == "" then fallback else r)
    ensures forall i :: 0 <= i < |Sanitize(s, fallback)| ==> Sanitize(s, fallback)[i] !in {',', '=', '\n'}
  {
    hide IdentityChar, Space, Trim;
    var r := Sanitize(s, fallback);
    if Trim(s) != "" {
      assert IdentityChar('_') by { Underscore(); }
      assert Clean(r);
    }
    if r != "" {
      SanitizeKeeps(r, fallback);
    } else {
      TrimNothing(r);
    }
    forall i | 0 <= i < |r| ensures r[i] !in {',', '=', '\n'} {
      IdentityNotSpace(r[i]);
    }
  }

  lemma Underscore()
    ensures IdentityChar('_')
  {
  }

  // ----- decimal numbers -----

  predicate AllDigits(s: string) { forall i :: 0 <= i < |s| ==> Digit(s[i]) }

  function DigitValue(c: char): (v: nat)
    requires Digit(c)
    ensures v <= 9
  {
    c as int - '0' as int
  }

  /** The number some digits spell. */
  function Number(s: string): nat
    requires AllDigits(s)
  {
    if s == "" then 0 else 10 * Number(s[..|s| - 1]) + DigitValue(s[|s| - 1])
  }

  lemma {:induction false} NumberGrows(s: string, i: nat)
    requires AllDigits(s) && i <= |s|
    ensures Number(s[..i]) <= Number(s)
    decreases |s|
  {
    if i < |s| {
      NumberGrows(s[..|s| - 1], i);
      assert s[..|s| - 1][..i] == s[..i];
    } else {
      assert s[..i] == s;
    }
  }

  /** The decimals accepted: non-empty, digits only, below two to the 64. */
  function ParseU64(s: string): Option<nat> {
    if s != "" && AllDigits(s) && Number(s) <= U64_MAX then Some(Number(s)) else None
  }

  /** The digit loop with its overflow guard accepts exactly the decimals that fit 64 bits. */
  method ParseDecimal(s: string) returns (r: Option<nat>)
    ensures r == ParseU64(s)
  {
    hide Digit, DigitValue;
    if s == "" {
      return None;
    }
    var value: nat := 0;
    var i := 0;
    while i < |s|
      invariant 0 <= i <= |s| && AllDigits(s[..i]) && value == Number(s[..i]) <= U64_MAX
    {
      if !Digit(s[i]) {
        return None;
      }
      var digit := DigitValue(s[i]);
      assert s[..i + 1][..i] == s[..i];
      if value > (U64_MAX - digit) / 10 {
        TooBig(value, digit);
        if AllDigits(s) {
          NumberGrows(s, i + 1);
        }
        return None;
      }
      value := 10 * value + digit;
      i := i + 1;
    }
    assert s[..i] == s;
    return Some(value);
  }

  lemma TooBig(value: nat, digit: nat)
    requires digit <= 9 && value > (U64_MAX - digit) / 10
    ensures 10 * value + digit > U64_MAX
  {
  }

  function DigitOf(n: nat): (c: char)
    requires n <= 9
    ensures Digit(c) && DigitValue(c) == n
  {
    '0' + n as char
  }

  function Decimal(n: nat): (s: string)
    ensures s != "" && AllDigits(s)
  {
    if n < 10 then [DigitOf(n)] else Decimal(n / 10) + [DigitOf(n % 10)]
  }

  lemma {:induction false} DecimalNumber(n: nat)
    ensures Number(Decimal(n)) == n
  {
    hide DigitOf, DigitValue, Digit;
    if n >= 10 {
      DecimalNumber(n / 10);
      assert Decimal(n)[..|Decimal(n)| - 1] == Decimal(n / 10);
    } else {
      assert Number("") == 0;
      assert Decimal(n)[..0] == "";
    }
  }

  // ----- separated text -----

  /** The pieces of a text that ends every piece with the separator, or lacks it after the last. */
  function Pieces(s: string, sep: char): seq<string> { Scan(s, sep, "") }

  function Scan(s: string, sep: char, piece: string): seq<string>
    decreases |s|
  {
    if s == "" then (if piece == "" then [] else [piece])
    else if s[0] == sep then [piece] + Scan(s[1..], sep, "")
    else Scan(s[1..], sep, piece + [s[0]])
  }

  predicate Without(s: string, sep: char) { forall i :: 0 <= i < |s| ==> s[i] != sep }

  lemma {:induction false} ScanPiece(s: string, sep: char, piece: string, rest: string)
    requires Without(s, sep)
    ensures Scan(s + rest, sep, piece) == Scan(rest, sep, piece + s)
    decreases |s|
  {
    if s == "" {
      assert s + rest == rest && piece + s == piece;
    } else {
      assert (s + rest)[1..] == s[1..] + rest;
      assert piece + s == piece + [s[0]] + s[1..];
      ScanPiece(s[1..], sep, piece + [s[0]], rest);
    }
  }

  /** Pieces with the separator between them. */
  function Join(ps: seq<string>, sep: char): string {
    if ps == [] then "" else if |ps| == 1 then ps[0] else ps[0] + [sep] + Join(ps[1..], sep)
  }

  predicate Separable(ps: seq<string>, sep: char) { forall i :: 0 <= i < |ps| ==> ps[i] != "" && Without(ps[i], sep) }

  lemma {:induction false} PiecesOfJoin(ps: seq<string>, sep: char)
    requires Separable(ps, sep)
    ensures Pieces(Join(ps, sep), sep) == ps
    decreases |ps|
  {
    hide Without;
    if |ps| == 1 {
      ScanPiece(ps[0], sep, "", "");
      assert ps[0] + "" == ps[0] && "" + ps[0] == ps[0];
      assert Scan("", sep, ps[0]) == [ps[0]];
    } else if |ps| > 1 {
      var rest := [sep] + Join(ps[1..], sep);
      assert Join(ps, sep) == ps[0] + rest && "" + ps[0] == ps[0];
      ScanPiece(ps[0], sep, "", rest);
      assert rest[1..] == Join(ps[1..], sep);
      PiecesOfJoin(ps[1..], sep);
    }
  }

  /** Sanitised tokens of a comma-separated text, empty ones dropped. */
  function Tokens(ps: seq<string>): set<string> {
    if ps == [] then {}
    else
      var t := Sanitize(ps[|ps| - 1], "");
      Tokens(ps[..|ps| - 1]) + (if t == "" then {} else {t})
  }

  predicate AllClean(ps: seq<string>) { forall i :: 0 <= i < |ps| ==> Clean(ps[i]) }

  function Elements(ps: seq<string>): set<string> { set p | p in ps }

  lemma {:induction false} TokensOfClean(ps: seq<string>)
    requires AllClean(ps)
    ensures Tokens(ps) == Elements(ps)
    decreases |ps|
  {
    hide Sanitize, Clean;
    if ps != [] {
      var last := ps[|ps| - 1];
      TokensOfClean(ps[..|ps| - 1]);
      SanitizeKeeps(last, "");
      assert last != "" by { CleanNonEmpty(last); }
      assert ps == ps[..|ps| - 1] + [last];
    }
  }

  lemma CleanNonEmpty(s: string)
    requires Clean(s)
    ensures s != ""
  {
    hide AllIdentity;
  }

  /** Joined sanitised identities split back into the same identities. */
  lemma IdentitiesReturn(ps: seq<string>)
    requires AllClean(ps)
    ensures Tokens(Pieces(Join(ps, ','), ',')) == Elements(ps)
  {
    hide Pieces, Tokens, Join, IdentityChar;
    forall i | 0 <= i < |ps| ensures ps[i] != "" && Without(ps[i], ',') {
      assert Clean(ps[i]);
      forall j | 0 <= j < |ps[i]| ensures ps[i][j] != ',' {
        IdentityNotSpace(ps[i][j]);
      }
    }
    PiecesOfJoin(ps, ',');
    TokensOfClean(ps);
  }

  // ----- the file -----

  const FRESH: Usage := Usage(0, 0, 0, 0, false, false, {}, {})

  function Flag(b: bool): string { if b then "1" else "0" }

  /** The lines written; the identities in any order, each once. */
  function FileLines(u: Usage, users: seq<string>, nodes: seq<string>): seq<string>
    requires u.monthTag >= 0 && u.startDay >= 0
  {
    ["month_tag=" + Decimal(u.monthTag), "rows_this_month=" + Decimal(u.rows),
     "eval_start_day_utc=" + Decimal(u.startDay),
     "warn_pct_1_emitted=" + Flag(u.warned1), "warn_pct_2_emitted=" + Flag(u.warned2),
     "users=" + Join(users, ','), "nodes=" + Join(nodes, ',')]
  }

  function WithNewlines(lines: seq<string>): string {
    if lines == [] then "" else lines[0] + ['\n'] + WithNewlines(lines[1..])
  }

  /** The place of the first equals sign, or the length. */
  function EqualsAt(line: string): (i: nat)
    ensures i <= |line|
  {
    if line == "" || line[0] == '=' then 0 else 1 + EqualsAt(line[1..])
  }

  /** A 64-bit number stored into a signed field of some width. */
  function Signed(n: nat, modulus: nat): int
    requires modulus > 0
  {
    var m := n % modulus;
    if 2 * m < modulus then m else m - modulus
  }

  const TWO32: nat := 0x1_0000_0000
  const TWO64: nat := 0x1_0000_0000_0000_0000

  function SetField(u: Usage, key: string, val: string): Usage {
    if key == "month_tag" then
      (if ParseU64(val).Some? then u.(monthTag := Signed(ParseU64(val).value, TWO32)) else u)
    else if key == "rows_this_month" then
      (if ParseU64(val).Some? then u.(rows := ParseU64(val).value) else u)
    else if key == "eval_start_day_utc" then
      (if ParseU64(val).Some? then u.(startDay := Signed(ParseU64(val).value, TWO64)) else u)
    else if key == "warn_pct_1_emitted" then u.(warned1 := val == "1")
    else if key == "warn_pct_2_emitted" then u.(warned2 := val == "1")
    else if key == "users" then u.(users := u.users + Tokens(Pieces(val, ',')))
    else if key == "nodes" then u.(nodes := u.nodes + Tokens(Pieces(val, ',')))
    else u
  }

  /** A line sets a field when it has an equals sign; the rest is ignored. */
  function LoadLine(u: Usage, line: string): Usage {
    var at := EqualsAt(line);
    if at == |line| then u else SetField(u, Trim(line[..at]), Trim(line[at + 1..]))
  }

  function LoadLines(u: Usage, lines: seq<string>): Usage {
    if lines == [] then u else LoadLine(LoadLines(u, lines[..|lines| - 1]), lines[|lines| - 1])
  }

  /** Loading a file into a state. */
  function Load(u: Usage, text: string): Usage { Saved(LoadLines(u, Pieces(text, '\n'))) }

  lemma {:induction false} LinesReturn(lines: seq<string>)
    requires forall i :: 0 <= i < |lines| ==> Without(lines[i], '\n')
    ensures Pieces(WithNewlines(lines), '\n') == lines
    decreases |lines|
  {
    hide Without;
    if lines != [] {
      var rest := ['\n'] + WithNewlines(lines[1..]);
      assert WithNewlines(lines) == lines[0] + rest && "" + lines[0] == lines[0];
      ScanPiece(lines[0], '\n', "", rest);
      assert rest[1..] == WithNewlines(lines[1..]);
      LinesReturn(lines[1..]);
    }
  }

  /** Text that survives as key or value of a line: no equals sign in a key, no blank at the ends. */
  predicate Tight(s: string) { s != "" ==> !Space(s[0]) && !Space(s[|s| - 1]) }

  lemma {:induction false} EqualsFound(key: string, val: string)
    requires Without(key, '=')
    ensures EqualsAt(key + "=" + val) == |key|
    decreases |key|
  {
    var line := key + "=" + val;
    if key != "" {
      assert line[1..] == key[1..] + "=" + val;
      EqualsFound(key[1..], val);
    }
  }

  lemma LineSets(u: Usage, key: string, val: string)
    requires Without(key, '=') && Tight(key) && Tight(val)
    ensures LoadLine(u, key + "=" + val) == SetField(u, key, val)
  {
    hide SetField, Trim, EqualsAt, Space;
    var line := key + "=" + val;
    EqualsFound(key, val);
    TrimNothing(key);
    TrimNothing(val);
    assert line[..|key|] == key && line[|key| + 1..] == val;
  }

  /** A value that fits a line: tight, and on one line. */
  predicate Fits(val: string) { Tight(val) && Without(val, '\n') }

  lemma DigitsFit(n: nat)
    ensures Fits(Decimal(n))
  {
    hide Decimal;
    var s := Decimal(n);
    forall i | 0 <= i < |s| ensures !Space(s[i]) && s[i] != '\n' {
      assert Digit(s[i]);
    }
  }

  lemma FlagFits(b: bool)
    ensures Fits(Flag(b)) && (Flag(b) == "1" <==> b)
  {
  }

  lemma {:induction false} JoinFits(ps: seq<string>)
    requires AllClean(ps)
    ensures Fits(Join(ps, ','))
    ensures ps != [] ==> Join(ps, ',') != "" && Join(ps, ',')[0] == ps[0][0]
    decreases |ps|
  {
    hide IdentityChar, Space;
    if ps != [] {
      assert Clean(ps[0]);
      forall j | 0 <= j < |ps[0]| ensures !Space(ps[0][j]) && ps[0][j] != '\n' {
        IdentityNotSpace(ps[0][j]);
      }
      if |ps| > 1 {
        JoinFits(ps[1..]);
        var rest := Join(ps[1..], ',');
        assert Join(ps, ',') == ps[0] + [','] + rest;
        assert rest != "" by { assert Clean(ps[1..][0]); }
      }
    }
  }

  lemma LoadAppend(u: Usage, lines: seq<string>, line: string)
    ensures LoadLines(u, lines + [line]) == LoadLine(LoadLines(u, lines), line)
  {
    hide LoadLine;
    assert (lines + [line])[..|lines|] == lines;
  }

  lemma NumberReturns(n: nat)
    requires n <= U64_MAX
    ensures ParseU64(Decimal(n)) == Some(n)
  {
    DecimalNumber(n);
    hide Decimal, Number;
  }

  /** States with numbers the file can carry and sanitised identities. */
  predicate Storable(u: Usage) {
    && 0 <= u.monthTag < 0x8000_0000 && u.rows <= U64_MAX && 0 <= u.startDay < 0x8000_0000_0000_0000
    && (forall s :: s in u.users ==> Clean(s)) && (forall s :: s in u.nodes ==> Clean(s))
  }

  predicate KeyFits(key: string) { Without(key, '=') && Tight(key) && Without(key, '\n') }

  lemma NumberKeysFit()
    ensures KeyFits("month_tag") && KeyFits("rows_this_month") && KeyFits("eval_start_day_utc")
  {
  }

  lemma OtherKeysFit()
    ensures KeyFits("warn_pct_1_emitted") && KeyFits("warn_pct_2_emitted") && KeyFits("users") && KeyFits("nodes")
  {
  }

  lemma NumbersSet(v: Usage, u: Usage)
    requires Storable(u)
    ensures SetField(v, "month_tag", Decimal(u.monthTag)) == v.(monthTag := u.monthTag)
    ensures SetField(v, "rows_this_month", Decimal(u.rows)) == v.(rows := u.rows)
    ensures SetField(v, "eval_start_day_utc", Decimal(u.startDay)) == v.(startDay := u.startDay)
  {
    hide Decimal, ParseU64, Tokens, Pieces, Clean;
    NumberReturns(u.monthTag);
    NumberReturns(u.rows);
    NumberReturns(u.startDay);
  }

  lemma FlagsSet(v: Usage, b: bool)
    ensures SetField(v, "warn_pct_1_emitted", Flag(b)) == v.(warned1 := b)
    ensures SetField(v, "warn_pct_2_emitted", Flag(b)) == v.(warned2 := b)
  {
    hide ParseU64, Tokens, Pieces;
  }

  lemma IdentitiesSet(v: Usage, ps: seq<string>)
    requires AllClean(ps)
    ensures SetField(v, "users", Join(ps, ',')) == v.(users := v.users + Elements(ps))
    ensures SetField(v, "nodes", Join(ps, ',')) == v.(nodes := v.nodes + Elements(ps))
  {
    hide ParseU64, Tokens, Pieces, Join, Elements, Clean;
    IdentitiesReturn(ps);
  }

  /** One written field, loaded behind the fields before it. */
  lemma FieldLoads(before: Usage, lines: seq<string>, k: nat, key: string, val: string)
    requires KeyFits(key) && Fits(val) && k < |lines| && lines[k] == key + "=" + val
    requires LoadLines(FRESH, lines[..k]) == before
    ensures LoadLines(FRESH, lines[..k + 1]) == SetField(before, key, val)
    ensures Without(lines[k], '\n')
  {
    hide SetField, LoadLine, Space, FRESH;
    assert lines[..k + 1] == lines[..k] + [lines[k]];
    LoadAppend(FRESH, lines[..k], lines[k]);
    LineSets(before, key, val);
  }

  /** Loading into a fresh state what was persisted recovers every field and both sets, whatever order
      the identities were written in. */
  lemma LoadsPersisted(u: Usage, users: seq<string>, nodes: seq<string>)
    requires Storable(u) && Elements(users) == u.users && Elements(nodes) == u.nodes
    ensures Load(FRESH, WithNewlines(FileLines(u, users, nodes))) == Saved(u)
  {
    hide Decimal, Flag, Join, Pieces, WithNewlines, LoadLines, SetField, Clean, AllClean, Fits, KeyFits, Without,
      Elements;
    var lines := FileLines(u, users, nodes);
    NumberKeysFit();
    OtherKeysFit();
    DigitsFit(u.monthTag); DigitsFit(u.rows); DigitsFit(u.startDay);
    FlagFits(u.warned1); FlagFits(u.warned2);
    CleanElements(users); CleanElements(nodes);
    JoinFits(users); JoinFits(nodes);
    NoLines();
    var u1 := FRESH.(monthTag := u.monthTag);
    var u2 := u1.(rows := u.rows);
    var u3 := u2.(startDay := u.startDay);
    var u4 := u3.(warned1 := u.warned1);
    var u5 := u4.(warned2 := u.warned2);
    var u6 := u5.(users := u5.users + Elements(users));
    NumbersSet(FRESH, u); NumbersSet(u1, u); NumbersSet(u2, u);
    FlagsSet(u3, u.warned1); FlagsSet(u4, u.warned2);
    IdentitiesSet(u5, users); IdentitiesSet(u6, nodes);
    assert lines[..0] == [];
    FieldLoads(FRESH, lines, 0, "month_tag", Decimal(u.monthTag));
    FieldLoads(u1, lines, 1, "rows_this_month", Decimal(u.rows));
    FieldLoads(u2, lines, 2, "eval_start_day_utc", Decimal(u.startDay));
    FieldLoads(u3, lines, 3, "warn_pct_1_emitted", Flag(u.warned1));
    FieldLoads(u4, lines, 4, "warn_pct_2_emitted", Flag(u.warned2));
    FieldLoads(u5, lines, 5, "users", Join(users, ','));
    FieldLoads(u6, lines, 6, "nodes", Join(nodes, ','));
    assert lines[..7] == lines;
    LinesReturn(lines);
  }

  lemma NoLines()
    ensures LoadLines(FRESH, []) == FRESH
  {
  }

  lemma CleanElements(ps: seq<string>)
    requires forall s :: s in Elements(ps) ==> Clean(s)
    ensures AllClean(ps)
  {
    hide Clean;
    forall i | 0 <= i < |ps| ensures Clean(ps[i]) {
      assert ps[i] in Elements(ps);
    }
  }
}
