/** The offline verifier's reading of an audit export: the CSV parser, against a writer that follows
    section 2 of RFC 4180, and the split of the export from its manifest line. */
module Csv {
  import opened Wrappers

  type Row = seq<string>

  /** The parser's variables between two characters. */
  datatype Scanner = Scanner(rows: seq<Row>, row: Row, field: string, inQuotes: bool)

  const START := Scanner([], [], "", false)
  const QUOTE := '"'
  const COMMA := ','
  const LF := '\n'
  const CR := '\r'

  /** The scanner after one character outside quotes. */
  function Outside(s: Scanner, c: char): Scanner {
    if c == QUOTE then s.(inQuotes := true)
    else if c == COMMA then s.(row := s.row + [s.field], field := "")
    else if c == LF then Scanner(s.rows + [s.row + [s.field]], [], "", false)
    else if c == CR then s
    else s.(field := s.field + [c])
  }

  /** The scanner after the text. Inside quotes, two quotes are one and one ends the quoting. */
  function Scan(s: Scanner, t: string): Scanner
    decreases |t|
  {
    if t == "" then s
    else if !s.inQuotes then Scan(Outside(s, t[0]), t[1..])
    else if t[0] != QUOTE then Scan(s.(field := s.field + [t[0]]), t[1..])
    else if |t| > 1 && t[1] == QUOTE then Scan(s.(field := s.field + [QUOTE]), t[2..])
    else Scan(s.(inQuotes := false), t[1..])
  }

  /** An unclosed quote is an error; a last row without a line end counts unless it is empty. */
  function Finish(s: Scanner): Option<seq<Row>> {
    if s.inQuotes then None
    else if s.field != "" || s.row != [] then Some(s.rows + [s.row + [s.field]])
    else Some(s.rows)
  }

  function Parse(t: string): Option<seq<Row>> {
    Finish(Scan(START, t))
  }

  method ParseCsv(text: string) returns (r: Option<seq<Row>>)
    ensures r == Parse(text)
  {
    var rows: seq<Row> := [];
    var row: Row := [];
    var field := "";
    var inQuotes := false;
    var i := 0;
    assert text[0..] == text;
    while i < |text|
      invariant 0 <= i <= |text|
      invariant Scan(START, text) == Scan(Scanner(rows, row, field, inQuotes), text[i..])
    {
      var ch := text[i];
      ghost var rest := text[i..];
      assert rest[0] == ch && rest[1..] == text[i + 1..];
      if inQuotes {
        if ch == QUOTE && i + 1 < |text| && text[i + 1] == QUOTE {
          assert rest[1] == QUOTE && rest[2..] == text[i + 2..];
          field := field + [QUOTE];
          i := i + 1;
        } else if ch == QUOTE {
          inQuotes := false;
        } else {
          field := field + [ch];
        }
      } else if ch == QUOTE {
        inQuotes := true;
      } else if ch == COMMA {
        row := row + [field];
        field := "";
      } else if ch == LF {
        row := row + [field];
        rows := rows + [row];
        row := [];
        field := "";
      } else if ch != CR {
        field := field + [ch];
      }
      i := i + 1;
    }
    if inQuotes {
      return None;
    }
    if field != "" || |row| > 0 {
      row := row + [field];
      rows := rows + [row];
    }
    r := Some(rows);
  }

  // ---------------------------------------------------------------- a writer by section 2 of RFC 4180

  /** A field with the writer's choice of quoting. */
  datatype Cell = Cell(value: string, quoted: bool)

  /** A record with the writer's choice of line end. */
  datatype Record = Record(cells: seq<Cell>, crlf: bool)

  /** Fields with quotes, commas or line breaks must be quoted; others may be. Records have a field. */
  ghost predicate Writable(r: Record) {
    r.cells != [] && forall i | 0 <= i < |r.cells| :: WritableCell(r.cells[i])
  }

  ghost predicate WritableCell(c: Cell) {
    c.quoted || ('"' !in c.value && ',' !in c.value && '\r' !in c.value && '\n' !in c.value)
  }

  function Doubled(v: string): string {
    if v == "" then "" else (if v[0] == '"' then "\"\"" else [v[0]]) + Doubled(v[1..])
  }

  function CellText(c: Cell): string {
    if c.quoted then ['"'] + Doubled(c.value) + ['"'] else c.value
  }

  function CellsText(cs: seq<Cell>): string {
    if cs == [] then "" else if |cs| == 1 then CellText(cs[0]) else CellText(cs[0]) + [','] + CellsText(cs[1..])
  }

  function RecordText(r: Record): string {
    CellsText(r.cells) + (if r.crlf then ['\r', '\n'] else ['\n'])
  }

  function Write(rs: seq<Record>): string {
    if rs == [] then "" else RecordText(rs[0]) + Write(rs[1..])
  }

  function Values(cs: seq<Cell>): (r: Row)
    ensures |r| == |cs| && forall i | 0 <= i < |cs| :: r[i] == cs[i].value
  {
    seq(|cs|, i requires 0 <= i < |cs| => cs[i].value)
  }

  function Table(rs: seq<Record>): (t: seq<Row>)
    ensures |t| == |rs| && forall i | 0 <= i < |rs| :: t[i] == Values(rs[i].cells)
  {
    seq(|rs|, i requires 0 <= i < |rs| => Values(rs[i].cells))
  }

  // ---------------------------------------------------------------- scanning what was written

  /** A doubled value followed by the closing quote and then no further quote is read as the value. */
  lemma {:induction false} ScanQuoted(s: Scanner, v: string, rest: string)
    requires s.inQuotes && (rest == "" || rest[0] != QUOTE)
    ensures Scan(s, Doubled(v) + [QUOTE] + rest) == Scan(s.(field := s.field + v, inQuotes := false), rest)
    decreases |v|
  {
    var t := Doubled(v) + [QUOTE] + rest;
    if v == "" {
      assert t[1..] == rest && s.field + v == s.field;
    } else {
      var u := Doubled(v[1..]) + [QUOTE] + rest;
      var next := s.(field := s.field + [v[0]]);
      if v[0] == QUOTE {
        assert t == [QUOTE, QUOTE] + u;
        assert t[2..] == u;
      } else {
        assert t == [v[0]] + u;
        assert t[1..] == u;
      }
      ScanQuoted(next, v[1..], rest);
      assert next.field + v[1..] == s.field + v;
    }
  }

  lemma {:induction false} ScanBare(s: Scanner, v: string, rest: string)
    requires !s.inQuotes && QUOTE !in v && COMMA !in v && CR !in v && LF !in v
    ensures Scan(s, v + rest) == Scan(s.(field := s.field + v), rest)
    decreases |v|
  {
    if v == "" {
      assert v + rest == rest && s.field + v == s.field;
    } else {
      assert (v + rest)[0] == v[0] && (v + rest)[1..] == v[1..] + rest;
      var next := s.(field := s.field + [v[0]]);
      ScanBare(next, v[1..], rest);
      assert next.field + v[1..] == s.field + v;
    }
  }

  /** A written field, with something other than a quote behind it, is read as its value. */
  lemma ScanCell(s: Scanner, c: Cell, rest: string)
    requires !s.inQuotes && s.field == "" && WritableCell(c) && (rest == "" || rest[0] != QUOTE)
    ensures Scan(s, CellText(c) + rest) == Scan(s.(field := c.value), rest)
  {
    if c.quoted {
      var inner := Doubled(c.value) + [QUOTE] + rest;
      var t := CellText(c) + rest;
      assert t == [QUOTE] + inner;
      assert t[1..] == inner;
      ScanQuoted(s.(inQuotes := true), c.value, rest);
      assert "" + c.value == c.value;
    } else {
      ScanBare(s, c.value, rest);
      assert "" + c.value == c.value;
    }
  }

  lemma ScanEnd(s: Scanner, c: char, rest: string)
    requires !s.inQuotes
    ensures Scan(s, [c] + rest) == Scan(Outside(s, c), rest)
    ensures Scan(s, "") == s
  {
    assert ([c] + rest)[1..] == rest;
  }

  /** The scanner with the fields' values read: all but the last pushed, the last still open. */
  function Opened(s: Scanner, cs: seq<Cell>): Scanner
    requires cs != []
  {
    s.(row := s.row + Values(cs)[..|cs| - 1], field := cs[|cs| - 1].value)
  }

  lemma OpenedOne(s: Scanner, c: Cell)
    ensures Opened(s, [c]) == s.(field := c.value)
  {
    assert s.row + Values([c])[..0] == s.row;
  }

  lemma OpenedNext(s: Scanner, cs: seq<Cell>)
    requires |cs| > 1
    ensures Opened(s.(row := s.row + [cs[0].value], field := ""), cs[1..]) == Opened(s, cs)
  {
    var row, vs, ws := s.row + [cs[0].value], Values(cs)[..|cs| - 1], Values(cs[1..])[..|cs| - 2];
    assert vs == [cs[0].value] + ws;
    assert row + ws == s.row + vs;
  }

  /** Written fields are read as their values. */
  lemma {:induction false} ScanCells(s: Scanner, cs: seq<Cell>, rest: string)
    requires !s.inQuotes && s.field == "" && cs != [] && (rest == "" || rest[0] != QUOTE)
    requires forall i | 0 <= i < |cs| :: WritableCell(cs[i])
    ensures Scan(s, CellsText(cs) + rest) == Scan(Opened(s, cs), rest)
    decreases |cs|
  {
    hide Scan;
    hide CellText;
    hide Opened;
    if |cs| == 1 {
      assert cs == [cs[0]];
      ScanCell(s, cs[0], rest);
      OpenedOne(s, cs[0]);
    } else {
      var more := CellsText(cs[1..]) + rest;
      var tail := [COMMA] + more;
      assert CellsText(cs) + rest == CellText(cs[0]) + tail;
      ScanCell(s, cs[0], tail);
      ScanEnd(s.(field := cs[0].value), COMMA, more);
      ScanCells(s.(row := s.row + [cs[0].value], field := ""), cs[1..], rest);
      OpenedNext(s, cs);
    }
  }

  lemma ScanRecord(rows: seq<Row>, r: Record, rest: string)
    requires Writable(r)
    ensures Scan(Scanner(rows, [], "", false), RecordText(r) + rest) ==
            Scan(Scanner(rows + [Values(r.cells)], [], "", false), rest)
  {
    hide Scan;
    hide CellsText;
    var s := Scanner(rows, [], "", false);
    var end := if r.crlf then [CR, LF] else [LF];
    var cs := r.cells;
    assert RecordText(r) + rest == CellsText(cs) + (end + rest);
    ScanCells(s, cs, end + rest);
    var open := Opened(s, cs);
    assert open.row + [open.field] == Values(cs);
    ScanEnd(open, LF, rest);
    if r.crlf {
      ScanEnd(open, CR, [LF] + rest);
      assert end + rest == [CR] + ([LF] + rest);
    }
  }

  lemma {:induction false} ScanRecords(rows: seq<Row>, rs: seq<Record>, rest: string)
    requires forall i | 0 <= i < |rs| :: Writable(rs[i])
    ensures Scan(Scanner(rows, [], "", false), Write(rs) + rest) == Scan(Scanner(rows + Table(rs), [], "", false), rest)
    decreases |rs|
  {
    hide Scan;
    hide RecordText;
    if rs == [] {
      assert Write(rs) + rest == rest && rows + Table(rs) == rows;
    } else {
      assert Write(rs) + rest == RecordText(rs[0]) + (Write(rs[1..]) + rest);
      ScanRecord(rows, rs[0], Write(rs[1..]) + rest);
      ScanRecords(rows + [Values(rs[0].cells)], rs[1..], rest);
      assert rows + [Values(rs[0].cells)] + Table(rs[1..]) == rows + Table(rs);
    }
  }

  /** Whatever quoting and line ends the writer chose, the table comes back. */
  lemma RoundTrip(rs: seq<Record>)
    requires forall i | 0 <= i < |rs| :: Writable(rs[i])
    ensures Parse(Write(rs)) == Some(Table(rs))
  {
    hide Write;
    ScanEnd(Scanner(Table(rs), [], "", false), LF, "");
    ScanRecords([], rs, "");
    assert Write(rs) + "" == Write(rs) && [] + Table(rs) == Table(rs);
  }

  /** A last record without a line end comes back too, unless it is a single empty field: that one
      record is lost. */
  lemma UnterminatedRoundTrip(rs: seq<Record>, last: Record)
    requires (forall i | 0 <= i < |rs| :: Writable(rs[i])) && Writable(last)
    ensures Parse(Write(rs) + CellsText(last.cells)) ==
            Some(Table(rs) + if Values(last.cells) == [""] then [] else [Values(last.cells)])
  {
    hide *;
    var cs := last.cells;
    ScanRecords([], rs, CellsText(cs));
    assert [] + Table(rs) == Table(rs);
    var s := Scanner(Table(rs), [], "", false);
    WritableParts(last);
    ScanCells(s, cs, "");
    FinishOpened(Table(rs), cs);
    ScanEnd(Opened(s, cs), LF, "");
    assert CellsText(cs) + "" == CellsText(cs);
    ParseIs(Write(rs) + CellsText(cs));
  }

  lemma ParseIs(t: string)
    ensures Parse(t) == Finish(Scan(Scanner([], [], "", false), t))
  {
    hide Scan;
    hide Finish;
  }

  lemma WritableParts(r: Record)
    requires Writable(r)
    ensures r.cells != [] && forall i | 0 <= i < |r.cells| :: WritableCell(r.cells[i])
  {
    hide WritableCell;
  }

  lemma FinishOpened(rows: seq<Row>, cs: seq<Cell>)
    requires cs != []
    ensures var s := Opened(Scanner(rows, [], "", false), cs);
            !s.inQuotes && Finish(s) == Some(rows + if Values(cs) == [""] then [] else [Values(cs)])
  {
    var s := Opened(Scanner(rows, [], "", false), cs);
    assert s.row + [s.field] == Values(cs);
    if |cs| == 1 && cs[0].value == "" {
      assert Values(cs) == [""];
      assert rows + [] == rows;
    } else if |cs| > 1 {
      assert |s.row| > 0;
    } else {
      assert Values(cs)[0] != "";
    }
  }

  // ---------------------------------------------------------------- any text

  function Quotes(t: string): nat {
    if t == "" then 0 else (if t[0] == QUOTE then 1 else 0) + Quotes(t[1..])
  }

  lemma {:induction false} ScanParity(s: Scanner, t: string)
    ensures Scan(s, t).inQuotes <==> (Quotes(t) % 2 == 1) != s.inQuotes
    decreases |t|
  {
    if t != "" {
      if !s.inQuotes {
        ScanParity(Outside(s, t[0]), t[1..]);
      } else if t[0] != QUOTE {
        ScanParity(s.(field := s.field + [t[0]]), t[1..]);
      } else if |t| > 1 && t[1] == QUOTE {
        assert t[1..][1..] == t[2..];
        ScanParity(s.(field := s.field + [QUOTE]), t[2..]);
      } else {
        ScanParity(s.(inQuotes := false), t[1..]);
      }
    }
  }

  /** A text is refused exactly when it has an odd number of quotes. */
  lemma RefusedOnOddQuotes(t: string)
    ensures Parse(t).None? <==> Quotes(t) % 2 == 1
  {
    ScanParity(START, t);
  }

  ghost predicate NonEmptyRows(rows: seq<Row>) {
    forall i | 0 <= i < |rows| :: rows[i] != []
  }

  lemma {:induction false} ScanNonEmpty(s: Scanner, t: string)
    requires NonEmptyRows(s.rows)
    ensures NonEmptyRows(Scan(s, t).rows)
    decreases |t|
  {
    if t != "" {
      if !s.inQuotes {
        ScanNonEmpty(Outside(s, t[0]), t[1..]);
      } else if t[0] != QUOTE {
        ScanNonEmpty(s.(field := s.field + [t[0]]), t[1..]);
      } else if |t| > 1 && t[1] == QUOTE {
        ScanNonEmpty(s.(field := s.field + [QUOTE]), t[2..]);
      } else {
        ScanNonEmpty(s.(inQuotes := false), t[1..]);
      }
    }
  }

  /** Every field quoted, every record ended with CRLF. */
  function QuoteAll(rows: seq<Row>): (rs: seq<Record>)
    ensures |rs| == |rows|
    ensures forall i | 0 <= i < |rows| :: rs[i].crlf && |rs[i].cells| == |rows[i]|
    ensures forall i, j | 0 <= i < |rows| && 0 <= j < |rows[i]| :: rs[i].cells[j] == Cell(rows[i][j], true)
  {
    seq(|rows|, i requires 0 <= i < |rows| =>
      Record(seq(|rows[i]|, j requires 0 <= j < |rows[i]| => Cell(rows[i][j], true)), true))
  }

  /** Whatever was read can be written again and read back the same. */
  lemma Rewrite(t: string)
    requires Parse(t).Some?
    ensures Parse(Write(QuoteAll(Parse(t).value))) == Parse(t)
  {
    var rows := Parse(t).value;
    ScanNonEmpty(START, t);
    var rs := QuoteAll(rows);
    forall i | 0 <= i < |rs| ensures Writable(rs[i]) {
      assert rows[i] != [];
      forall j | 0 <= j < |rs[i].cells| ensures WritableCell(rs[i].cells[j]) {
      }
    }
    RoundTrip(rs);
    forall i | 0 <= i < |rows| ensures Table(rs)[i] == rows[i] {
      assert Values(rs[i].cells) == rows[i];
    }
    assert Table(rs) == rows;
  }

  // ---------------------------------------------------------------- the manifest line

  predicate StandsAt(t: string, p: string, i: nat) {
    i + |p| <= |t| && t[i..i + |p|] == p
  }

  /** The last position at or below n where p stands in t. */
  function LastIndex(t: string, p: string, n: nat): (r: Option<nat>)
    ensures r.Some? ==> r.value <= n && StandsAt(t, p, r.value) && forall k | r.value < k <= n :: !StandsAt(t, p, k)
    ensures r.None? ==> forall k | 0 <= k <= n :: !StandsAt(t, p, k)
  {
    if StandsAt(t, p, n) then Some(n) else if n == 0 then None else LastIndex(t, p, n - 1)
  }

  /** The table's bytes, with their last line end, and the text behind the last manifest prefix. */
  function SplitExport(t: string, prefix: string): Option<(string, string)> {
    match LastIndex(t, [LF] + prefix, |t|)
    case None => None
    case Some(at) => Some((t[..at + 1], t[at + 1 + |prefix|..]))
  }

  /** However often the prefix occurs in the table, even at the start of a line, an appended manifest on
      one line is split off where it was appended. */
  lemma SplitAppended(table: string, prefix: string, manifest: string)
    requires table != "" && table[|table| - 1] == LF && prefix != "" && LF !in prefix
    requires forall i | 0 <= i < |manifest| - 1 :: manifest[i] != LF
    ensures SplitExport(table + prefix + manifest, prefix) == Some((table, manifest))
  {
    var t, marker, at := table + prefix + manifest, [LF] + prefix, |table| - 1;
    assert t[at..at + |marker|] == marker;
    assert StandsAt(t, marker, at);
    forall k | at < k <= |t| ensures !StandsAt(t, marker, k) {
      if k < |t| - 1 {
        assert t[k] != LF;
        assert k + |marker| <= |t| ==> t[k..k + |marker|][0] == t[k];
      }
    }
    assert LastIndex(t, marker, |t|) == Some(at);
    assert t[..at + 1] == table && t[at + 1 + |prefix|..] == manifest;
  }
}
