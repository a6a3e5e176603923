/** Splitting CSV lines, and the row import that feeds the file writer. */
module Csv {

  type Text = seq<bv8>

  const QUOTE: bv8 := 0x22
  const COMMA: bv8 := 0x2C
  const CR: bv8 := 0x0D

  predicate Blank(c: bv8) { c == 0x20 || c == 0x09 || c == 0x0D || c == 0x0A }

  predicate AllBlank(s: Text) { forall i :: 0 <= i < |s| ==> Blank(s[i]) }

  // ----- trimming -----

  function TrimLeft(s: Text): Text { if s != [] && Blank(s[0]) then TrimLeft(s[1..]) else s }

  function TrimRight(s: Text): Text { if s != [] && Blank(s[|s| - 1]) then TrimRight(s[..|s| - 1]) else s }

  function Trim(s: Text): Text { TrimRight(TrimLeft(s)) }

  /** What trimming removes is blank, and what it leaves has no blank at either end. */
  lemma {:induction false} TrimSplits(s: Text) returns (a: Text, b: Text)
    ensures s == a + Trim(s) + b
    ensures forall i :: 0 <= i < |a| ==> a[i] in [0x20, 0x09, 0x0D, 0x0A]
    ensures forall i :: 0 <= i < |b| ==> b[i] in [0x20, 0x09, 0x0D, 0x0A]
    ensures Trim(s) != [] ==>
              Trim(s)[0] !in [0x20, 0x09, 0x0D, 0x0A] && Trim(s)[|Trim(s)| - 1] !in [0x20, 0x09, 0x0D, 0x0A]
  {
    a := LeftSplits(s);
    b := RightSplits(TrimLeft(s));
  }

  lemma {:induction false} LeftSplits(s: Text) returns (a: Text)
    ensures s == a + TrimLeft(s) && AllBlank(a)
    ensures TrimLeft(s) != [] ==> !Blank(TrimLeft(s)[0])
  {
    a := [];
    if s != [] && Blank(s[0]) {
      a := LeftSplits(s[1..]);
      a := [s[0]] + a;
    }
  }

  lemma {:induction false} RightSplits(s: Text) returns (b: Text)
    ensures s == TrimRight(s) + b && AllBlank(b)
    ensures TrimRight(s) != [] ==> TrimRight(s)[0] == s[0] && !Blank(TrimRight(s)[|TrimRight(s)| - 1])
  {
    b := [];
    if s != [] && Blank(s[|s| - 1]) {
      b := RightSplits(s[..|s| - 1]);
      b := b + [s[|s| - 1]];
    }
  }

  /** The first and the last character that is not blank bound the result. */
  method TrimString(s: Text) returns (t: Text)
    ensures t == Trim(s)
  {
    hide Blank;
    var start := 0;
    while start < |s| && Blank(s[start])
      invariant 0 <= start <= |s| && TrimLeft(s[start..]) == TrimLeft(s)
    {
      assert s[start..][1..] == s[start + 1..];
      start := start + 1;
    }
    var rest := s[start..];
    var end := |rest|;
    assert rest[..end] == rest;
    while end > 0 && Blank(rest[end - 1])
      invariant 0 <= end <= |rest| && TrimRight(rest[..end]) == TrimRight(rest)
    {
      assert rest[..end][..end - 1] == rest[..end - 1];
      end := end - 1;
    }
    return rest[..end];
  }

  // ----- splitting -----

  /** The scanner on the rest of a line: inside or outside quotes, a field under way, fields done. */
  function Scan(rest: Text, quoted: bool, field: Text, fields: seq<Text>): seq<Text>
    decreases |rest|
  {
    if rest == [] then fields + [Trim(field)]
    else if quoted then
      if rest[0] != QUOTE then Scan(rest[1..], true, field + [rest[0]], fields)
      else if |rest| > 1 && rest[1] == QUOTE then Scan(rest[2..], true, field + [QUOTE], fields)
      else Scan(rest[1..], false, field, fields)
    else if rest[0] == QUOTE then Scan(rest[1..], true, field, fields)
    else if rest[0] == COMMA then Scan(rest[1..], false, [], fields + [Trim(field)])
    else if rest[0] == CR then Scan(rest[1..], false, field, fields)
    else Scan(rest[1..], false, field + [rest[0]], fields)
  }

  /** Splits one line; the index advances with every character looked at. */
  method SplitLine(line: Text) returns (fields: seq<Text>)
    ensures fields == Scan(line, false, [], [])
  {
    hide Trim;
    fields := [];
    var field: Text := [];
    var quoted := false;
    var i := 0;
    while i < |line|
      invariant 0 <= i <= |line|
      invariant Scan(line[i..], quoted, field, fields) == Scan(line, false, [], [])
    {
      var c := line[i];
      assert line[i..][1..] == line[i + 1..];
      assert i + 1 < |line| ==> line[i..][2..] == line[i + 2..];
      if quoted {
        if c == QUOTE {
          if i + 1 < |line| && line[i + 1] == QUOTE {
            field := field + [QUOTE];
            i := i + 2;
          } else {
            quoted := false;
            i := i + 1;
          }
        } else {
          field := field + [c];
          i := i + 1;
        }
      } else if c == QUOTE {
        quoted := true;
        i := i + 1;
      } else if c == COMMA {
        field := TrimString(field);
        fields := fields + [field];
        field := [];
        i := i + 1;
      } else if c == CR {
        i := i + 1;
      } else {
        field := field + [c];
        i := i + 1;
      }
    }
    field := TrimString(field);
    fields := fields + [field];
  }

  // ----- rendering by section 2 of RFC 4180 -----

  function Escape(s: Text): Text {
    if s == [] then [] else (if s[0] == 0x22 then [0x22, 0x22] else [s[0]]) + Escape(s[1..])
  }

  /** A field may stand bare when it holds no quote, comma or carriage return. */
  predicate Bare(s: Text) { forall i :: 0 <= i < |s| ==> s[i] != 0x22 && s[i] != 0x2C && s[i] != 0x0D }

  datatype Cell = Cell(text: Text, quotes: bool)

  predicate Renderable(cells: seq<Cell>) { forall i :: 0 <= i < |cells| ==> cells[i].quotes || Bare(cells[i].text) }

  function RenderCell(c: Cell): Text { if c.quotes then [0x22] + Escape(c.text) + [0x22] else c.text }

  function Render(cells: seq<Cell>): Text
    requires cells != []
  {
    if |cells| == 1 then RenderCell(cells[0]) else RenderCell(cells[0]) + [0x2C] + Render(cells[1..])
  }

  function Trimmed(cells: seq<Cell>): (fields: seq<Text>)
    ensures |fields| == |cells|
  {
    seq(|cells|, i requires 0 <= i < |cells| => Trim(cells[i].text))
  }

  /** Inside quotes the scanner undoes the doubling up to the closing quote. */
  lemma {:induction false} ScanQuoted(s: Text, rest: Text, field: Text, fields: seq<Text>)
    requires rest == [] || rest[0] != QUOTE
    ensures Scan(Escape(s) + [QUOTE] + rest, true, field, fields) == Scan(rest, false, field + s, fields)
    decreases |s|
  {
    hide Trim;
    var line := Escape(s) + [QUOTE] + rest;
    if s == [] {
      assert line[1..] == rest && field + s == field;
    } else {
      var tail := Escape(s[1..]) + [QUOTE] + rest;
      assert field + s == field + [s[0]] + s[1..];
      if s[0] == QUOTE {
        assert line[2..] == tail;
      } else {
        assert line[1..] == tail;
      }
      ScanQuoted(s[1..], rest, field + [s[0]], fields);
    }
  }

  lemma {:induction false} ScanBare(s: Text, rest: Text, field: Text, fields: seq<Text>)
    requires Bare(s)
    ensures Scan(s + rest, false, field, fields) == Scan(rest, false, field + s, fields)
    decreases |s|
  {
    hide Trim;
    if s == [] {
      assert s + rest == rest && field + s == field;
    } else {
      assert (s + rest)[1..] == s[1..] + rest;
      assert field + s == field + [s[0]] + s[1..];
      ScanBare(s[1..], rest, field + [s[0]], fields);
    }
  }

  lemma ScanCell(c: Cell, rest: Text, fields: seq<Text>)
    requires c.quotes || Bare(c.text)
    requires rest == [] || rest[0] == COMMA
    ensures Scan(RenderCell(c) + rest, false, [], fields) == Scan(rest, false, c.text, fields)
  {
    hide Trim, Escape;
    assert [] + c.text == c.text;
    if c.quotes {
      assert (RenderCell(c) + rest)[1..] == Escape(c.text) + [QUOTE] + rest;
      ScanQuoted(c.text, rest, [], fields);
    } else {
      ScanBare(c.text, rest, [], fields);
    }
  }

  lemma {:induction false} ScanCells(cells: seq<Cell>, fields: seq<Text>)
    requires cells != [] && Renderable(cells)
    ensures Scan(Render(cells), false, [], fields) == fields + Trimmed(cells)
    decreases |cells|
  {
    hide Trim, RenderCell;
    if |cells| == 1 {
      assert RenderCell(cells[0]) + [] == RenderCell(cells[0]);
      ScanCell(cells[0], [], fields);
    } else {
      var rest := [COMMA] + Render(cells[1..]);
      assert Render(cells) == RenderCell(cells[0]) + rest;
      ScanCell(cells[0], rest, fields);
      assert rest[1..] == Render(cells[1..]);
      ScanCells(cells[1..], fields + [Trim(cells[0].text)]);
    }
  }

  /** Splitting inverts rendering up to trimming, whatever the fields contain and however many are
      quoted that need not be. */
  lemma SplitRendered(cells: seq<Cell>)
    requires cells != [] && Renderable(cells)
    ensures Scan(Render(cells), false, [], []) == Trimmed(cells)
  {
    hide Trim, RenderCell, Scan;
    ScanCells(cells, []);
  }
}
