/** The CSV writer (src/portal/analytics/csv.ts) and a reader of the format in section 2
    of RFC 4180. */
module Csv {
  import opened Common
  import opened Decimal

  /** `null`, or the text String(value) gives. */
  datatype Cell = Null | Text(text: string)

  datatype Section = Section(title: Option<string>, columns: seq<string>, rows: seq<seq<Cell>>)

  const BOM: char := '\U{FEFF}'
  const EOL := "\r\n"

  predicate Special(c: char) { c == ',' || c == '"' || c == '\r' || c == '\n' }

  function Doubled(s: string): string {
    if s == "" then "" else (if s[0] == '"' then "\"\"" else [s[0]]) + Doubled(s[1..])
  }

  function TextOf(c: Cell): string { if c.Null? then "" else c.text }

  predicate NeedsQuotes(s: string) { exists x <- s :: Special(x) }

  function EscapeField(c: Cell): string {
    var s := TextOf(c);
    if NeedsQuotes(s) then "\"" + Doubled(s) + "\"" else s
  }

  /** record.map(escapeField).join(',') */
  function PrintRecord(cells: seq<Cell>): string {
    if cells == [] then ""
    else if |cells| == 1 then EscapeField(cells[0])
    else EscapeField(cells[0]) + "," + PrintRecord(cells[1..])
  }

  function JoinLines(lines: seq<string>): string {
    if lines == [] then "" else if |lines| == 1 then lines[0] else lines[0] + EOL + JoinLines(lines[1..])
  }

  // ----- The records of a file -----

  function Cells(texts: seq<string>): seq<Cell> { seq(|texts|, i requires 0 <= i < |texts| => Text(texts[i])) }

  function SectionHead(s: Section): seq<seq<Cell>> {
    (if s.title.Some? then [[Text(s.title.value)]] else []) + [Cells(s.columns)]
  }

  function SectionRecords(s: Section): seq<seq<Cell>> { SectionHead(s) + s.rows }

  /** A blank line separates a section from the one before it. */
  function Records(sections: seq<Section>): seq<seq<Cell>> {
    if sections == [] then []
    else
      var n := |sections| - 1;
      Records(sections[..n]) + (if n > 0 then [[]] else []) + SectionRecords(sections[n])
  }

  function PrintAll(records: seq<seq<Cell>>): seq<string> {
    seq(|records|, i requires 0 <= i < |records| => PrintRecord(records[i]))
  }

  function Csv(sections: seq<Section>): string { [BOM] + JoinLines(PrintAll(Records(sections))) + EOL }

  method ToCsv(sections: seq<Section>) returns (csv: string)
    ensures csv == Csv(sections)
  {
    var lines: seq<string> := [];
    for i := 0 to |sections|
      invariant lines == PrintAll(Records(sections[..i]))
    {
      var section := sections[i];
      ghost var before := Records(sections[..i]) + (if i > 0 then [[]] else []);
      if i > 0 { lines := lines + [""]; }
      if section.title.Some? { lines := lines + [EscapeField(Text(section.title.value))]; }
      lines := lines + [PrintRecord(Cells(section.columns))];
      ghost var top := before + SectionHead(section);
      TopLines(lines, Records(sections[..i]), i > 0, section);
      for j := 0 to |section.rows|
        invariant lines == PrintAll(top + section.rows[..j])
      {
        PrintOneMore(top + section.rows[..j], section.rows[j]);
        assert top + section.rows[..j + 1] == (top + section.rows[..j]) + [section.rows[j]];
        lines := lines + [PrintRecord(section.rows[j])];
      }
      NextSection(sections, i, before);
    }
    assert sections[..|sections|] == sections;
    csv := [BOM] + JoinLines(lines) + EOL;
  }

  lemma PrintOneMore(records: seq<seq<Cell>>, r: seq<Cell>)
    ensures PrintAll(records + [r]) == PrintAll(records) + [PrintRecord(r)]
  {}

  lemma NextSection(sections: seq<Section>, i: nat, before: seq<seq<Cell>>)
    requires i < |sections| && before == Records(sections[..i]) + (if i > 0 then [[]] else [])
    ensures before + SectionHead(sections[i]) + sections[i].rows[..|sections[i].rows|] == Records(sections[..i + 1])
  {
    assert sections[..i + 1][..i] == sections[..i];
    assert sections[i].rows[..|sections[i].rows|] == sections[i].rows;
    assert before + SectionHead(sections[i]) + sections[i].rows
         == before + (SectionHead(sections[i]) + sections[i].rows);
  }

  /** The lines a section opens with: a blank one, a title, the column names. */
  lemma TopLines(lines: seq<string>, done: seq<seq<Cell>>, blank: bool, s: Section)
    requires lines == PrintAll(done) + (if blank then [""] else [])
                      + (if s.title.Some? then [EscapeField(Text(s.title.value))] else [])
                           + [PrintRecord(Cells(s.columns))]
    ensures lines == PrintAll(done + (if blank then [[]] else []) + SectionHead(s))
  {
    if blank { PrintOneMore(done, []); }
    var preamble := done + (if blank then [[]] else []);
    if s.title.Some? {
      var title := [Text(s.title.value)];
      PrintOneMore(preamble, title);
      PrintOneMore(preamble + [title], Cells(s.columns));
      assert preamble + SectionHead(s) == preamble + [title] + [Cells(s.columns)];
    } else {
      PrintOneMore(preamble, Cells(s.columns));
      assert preamble + SectionHead(s) == preamble + [Cells(s.columns)];
    }
  }

  // ----- The reader -----

  datatype Mode = FieldStart | Plain | Quoted | QuoteSeen | CrSeen

  /** One pass over the characters; None when the text is not RFC 4180. */
  function Read(s: string, mode: Mode, field: string, record: seq<string>,
      done: seq<seq<string>>): Option<seq<seq<string>>>
    decreases |s|
  {
    if s == "" then
      if mode.Quoted? || mode.CrSeen? then None
      else if mode.FieldStart? && record == [] then Some(done)
      else Some(done + [record + [field]])
    else
      var c, rest := s[0], s[1..];
      match mode
      case CrSeen => if c == '\n' then Read(rest, FieldStart, "", [], done + [record + [field]]) else None
      case Quoted =>
        if c == '"' then Read(rest, QuoteSeen, field, record, done)
        else Read(rest, Quoted, field + [c], record, done)
      case _ =>
        if c == ',' then Read(rest, FieldStart, "", record + [field], done)
        else if c == '\r' then Read(rest, CrSeen, field, record, done)
        else if c == '"' && mode.FieldStart? then Read(rest, Quoted, "", record, done)
        else if c == '"' && mode.QuoteSeen? then Read(rest, Quoted, field + [c], record, done)
        else if c == '"' || c == '\n' || mode.QuoteSeen? then None
        else Read(rest, Plain, field + [c], record, done)
  }

  function ReadCsv(s: string): Option<seq<seq<string>>> {
    Read(if s != "" && s[0] == BOM then s[1..] else s, FieldStart, "", [], [])
  }

  // ----- Round trip -----

  /** What a printed record reads back as: a record of no fields prints an empty line. */
  function ReadBack(cells: seq<Cell>): seq<string> {
    if cells == [] then [""] else Texts(cells)
  }

  function Texts(cells: seq<Cell>): seq<string> {
    seq(|cells|, i requires 0 <= i < |cells| => TextOf(cells[i]))
  }

  function ReadBackAll(records: seq<seq<Cell>>): seq<seq<string>> {
    seq(|records|, i requires 0 <= i < |records| => ReadBack(records[i]))
  }

  lemma {:induction false} ReadPlain(s: string, tail: string, mode: Mode, field: string, record: seq<string>,
      done: seq<seq<string>>)
    requires (forall x <- s :: !Special(x)) && (mode.Plain? || mode.FieldStart?)
    ensures Read(s + tail, mode, field, record, done)
         == Read(tail, if s == "" then mode else Plain, field + s, record, done)
    decreases |s|
  {
    if s == "" {
      assert s + tail == tail && field + s == field;
    } else {
      assert (s + tail)[0] == s[0] && (s + tail)[1..] == s[1..] + tail;
      assert s[0] in s;
      ReadPlain(s[1..], tail, Plain, field + [s[0]], record, done);
      assert field + [s[0]] + s[1..] == field + s;
    }
  }

  lemma {:induction false} ReadQuoted(s: string, tail: string, field: string, record: seq<string>,
      done: seq<seq<string>>)
    ensures Read(Doubled(s) + "\"" + tail, Quoted, field, record, done)
         == Read(tail, QuoteSeen, field + s, record, done)
    decreases |s|
  {
    var whole := Doubled(s) + "\"" + tail;
    if s == "" {
      assert whole[1..] == tail && field + s == field;
    } else {
      var rest := Doubled(s[1..]) + "\"" + tail;
      ReadQuoted(s[1..], tail, field + [s[0]], record, done);
      assert field + [s[0]] + s[1..] == field + s;
      if s[0] == '"' {
        assert whole[0] == '"' && whole[1] == '"' && whole[1..][0] == '"' && whole[1..][1..] == rest;
      } else {
        assert whole[0] == s[0] && whole[1..] == rest;
      }
    }
  }

  lemma ReadQuotedField(s: string, tail: string, record: seq<string>, done: seq<seq<string>>)
    ensures Read("\"" + Doubled(s) + "\"" + tail, FieldStart, "", record, done)
         == Read(tail, QuoteSeen, s, record, done)
  {
    var whole := "\"" + Doubled(s) + "\"" + tail;
    assert whole[0] == '"' && whole[1..] == Doubled(s) + "\"" + tail;
    ReadQuoted(s, tail, "", record, done);
    assert "" + s == s;
  }

  lemma ReadPlainField(s: string, tail: string, record: seq<string>, done: seq<seq<string>>)
    requires !NeedsQuotes(s)
    ensures Read(s + tail, FieldStart, "", record, done)
         == Read(tail, if s == "" then FieldStart else Plain, s, record, done)
  {
    ReadPlain(s, tail, FieldStart, "", record, done);
    assert "" + s == s;
  }

  /** A printed field, up to whatever follows it. */
  lemma ReadField(c: Cell, tail: string, record: seq<string>, done: seq<seq<string>>) returns (mode: Mode)
    ensures mode.Plain? || mode.QuoteSeen? || (mode.FieldStart? && TextOf(c) == "")
    ensures Read(EscapeField(c) + tail, FieldStart, "", record, done) == Read(tail, mode, TextOf(c), record, done)
  {
    var s := TextOf(c);
    if NeedsQuotes(s) {
      ReadQuotedField(s, tail, record, done);
      mode := QuoteSeen;
    } else {
      ReadPlainField(s, tail, record, done);
      mode := if s == "" then FieldStart else Plain;
    }
  }

  lemma {:induction false} ReadRecord(cells: seq<Cell>, tail: string, record: seq<string>, done: seq<seq<string>>)
    requires cells != []
    ensures Read(PrintRecord(cells) + EOL + tail, FieldStart, "", record, done)
         == Read(tail, FieldStart, "", [], done + [record + Texts(cells)])
    decreases |cells|
  {
    if |cells| == 1 {
      assert PrintRecord(cells) + EOL + tail == EscapeField(cells[0]) + (EOL + tail);
      ReadLast(cells[0], tail, record, done);
      assert Texts(cells) == [TextOf(cells[0])];
    } else {
      var f, next := TextOf(cells[0]), PrintRecord(cells[1..]) + EOL + tail;
      assert PrintRecord(cells) + EOL + tail == EscapeField(cells[0]) + ("," + next);
      ReadNext(cells[0], next, record, done);
      ReadRecord(cells[1..], tail, record + [f], done);
      assert record + [f] + Texts(cells[1..]) == record + Texts(cells);
    }
  }

  lemma ReadLast(c: Cell, tail: string, record: seq<string>, done: seq<seq<string>>)
    ensures Read(EscapeField(c) + (EOL + tail), FieldStart, "", record, done)
         == Read(tail, FieldStart, "", [], done + [record + [TextOf(c)]])
  {
    var rest := EOL + tail;
    var mode := ReadField(c, rest, record, done);
    assert rest[0] == '\r' && rest[1..][0] == '\n' && rest[1..][1..] == tail;
  }

  lemma ReadNext(c: Cell, next: string, record: seq<string>, done: seq<seq<string>>)
    ensures Read(EscapeField(c) + ("," + next), FieldStart, "", record, done)
         == Read(next, FieldStart, "", record + [TextOf(c)], done)
  {
    var rest := "," + next;
    var mode := ReadField(c, rest, record, done);
    assert rest[0] == ',' && rest[1..] == next;
  }

  lemma ReadLine(cells: seq<Cell>, tail: string, done: seq<seq<string>>)
    ensures Read(PrintRecord(cells) + EOL + tail, FieldStart, "", [], done)
         == Read(tail, FieldStart, "", [], done + [ReadBack(cells)])
  {
    if cells == [] {
      var s := EOL + tail;
      assert "" + EOL + tail == s;
      assert s[0] == '\r' && s[1..][0] == '\n' && s[1..][1..] == tail;
      assert [] + [""] == [""];
    } else {
      ReadRecord(cells, tail, [], done);
      assert [] + Texts(cells) == Texts(cells);
    }
  }

  lemma {:induction false} ReadLines(records: seq<seq<Cell>>, done: seq<seq<string>>)
    requires records != []
    ensures Read(JoinLines(PrintAll(records)) + EOL, FieldStart, "", [], done) == Some(done + ReadBackAll(records))
    decreases |records|
  {
    var first, lines := PrintRecord(records[0]), PrintAll(records);
    assert ReadBackAll(records) == [ReadBack(records[0])] + ReadBackAll(records[1..]);
    if |records| == 1 {
      assert JoinLines(lines) + EOL == first + EOL + "";
      ReadLine(records[0], "", done);
      assert ReadBackAll(records) == [ReadBack(records[0])];
    } else {
      assert lines[1..] == PrintAll(records[1..]);
      var tail := JoinLines(PrintAll(records[1..])) + EOL;
      assert JoinLines(lines) + EOL == first + EOL + tail;
      ReadLine(records[0], tail, done);
      ReadLines(records[1..], done + [ReadBack(records[0])]);
      assert done + [ReadBack(records[0])] + ReadBackAll(records[1..]) == done + ReadBackAll(records);
    }
  }

  /** A file as a reader has it: a blank line between sections, then the title, if any, the column
      names and the rows, an unknown cell empty. A line of no cells is one empty field. */
  function Expected(sections: seq<Section>): seq<seq<string>> {
    if sections == [] then []
    else
      var (init, s) := (sections[..|sections| - 1], sections[|sections| - 1]);
      Expected(init) + (if init == [] then [] else [[""]]) + (if s.title.Some? then [[s.title.value]] else [])
      + [if s.columns == [] then [""] else s.columns] + Rows(s.rows)
  }

  function Rows(rows: seq<seq<Cell>>): seq<seq<string>> {
    seq(|rows|, i requires 0 <= i < |rows| => if rows[i] == [] then [""] else CellTexts(rows[i]))
  }

  function CellTexts(cells: seq<Cell>): seq<string> {
    seq(|cells|, i requires 0 <= i < |cells| => match cells[i] case Null => "" case Text(text) => text)
  }

  lemma {:induction false} ExpectedIs(sections: seq<Section>)
    ensures ReadBackAll(Records(sections)) == Expected(sections)
    decreases |sections|
  {
    if sections == [] {
    } else {
      var n := |sections| - 1;
      ExpectedIs(sections[..n]);
      OneMoreExpected(Records(sections[..n]), Expected(sections[..n]), n > 0, sections[n]);
    }
  }

  lemma OneMoreExpected(records: seq<seq<Cell>>, expected: seq<seq<string>>, later: bool, s: Section)
    requires ReadBackAll(records) == expected
    ensures ReadBackAll(records + (if later then [[]] else []) + SectionRecords(s))
         == expected + (if later then [[""]] else []) + (if s.title.Some? then [[s.title.value]] else [])
            + [if s.columns == [] then [""] else s.columns] + Rows(s.rows)
  {
    var gap: seq<seq<Cell>> := if later then [[]] else [];
    assert ReadBackAll(gap) == if later then [[""]] else [];
    ReadBackSplit(records, gap, SectionRecords(s));
    SectionIs(s);
  }

  lemma SectionIs(s: Section)
    ensures ReadBackAll(SectionRecords(s))
         == (if s.title.Some? then [[s.title.value]] else [])
            + [if s.columns == [] then [""] else s.columns] + Rows(s.rows)
  {
    assert Texts(Cells(s.columns)) == s.columns;
    forall cells: seq<Cell> ensures Texts(cells) == CellTexts(cells) {}
    assert s.title.Some? ==> ReadBack([Text(s.title.value)]) == [s.title.value];
    ReadBackSplit(if s.title.Some? then [[Text(s.title.value)]] else [], [Cells(s.columns)], s.rows);
  }

  /** Reading back a written file, for fields holding any mix of commas, quotes, CR and LF; the
      file starts with the byte order mark and ends its last line. */
  lemma RoundTrip(sections: seq<Section>)
    requires sections != []
    ensures ReadCsv(Csv(sections)) == Some(Expected(sections))
    ensures var csv := Csv(sections);
            |csv| >= 3 && csv[0] == '\U{FEFF}' && csv[|csv| - 2] == '\r' && csv[|csv| - 1] == '\n'
  {
    var records := Records(sections);
    assert records != [];
    var body := JoinLines(PrintAll(records)) + EOL;
    assert Csv(sections)[0] == BOM && Csv(sections)[1..] == body;
    ReadLines(records, []);
    assert [] + ReadBackAll(records) == ReadBackAll(records);
    ExpectedIs(sections);
  }

  /** A field is quoted only where a comma, a quote or a line end makes it necessary. */
  lemma QuotedExactly(c: Cell)
    ensures var s := match c case Null => "" case Text(text) => text;
            var plain := forall x <- s :: x != ',' && x != '"' && x != '\r' && x != '\n';
            if plain then EscapeField(c) == s
            else |EscapeField(c)| >= 2 + |s| && EscapeField(c)[0] == '"' && EscapeField(c)[|EscapeField(c)| - 1] == '"'
  {
    DoubledLonger(TextOf(c));
  }

  lemma {:induction false} DoubledLonger(s: string)
    ensures |Doubled(s)| >= |s|
  {
    if s == "" {
    } else {
      DoubledLonger(s[1..]);
    }
  }

  /** No sections still write one line end, which reads as one record of one empty field. */
  lemma RoundTripNothing()
    ensures ReadCsv(Csv([])) == Some([[""]])
  {
    assert Records([]) == [] && JoinLines(PrintAll([])) == "";
    var s := Csv([]);
    assert s == [BOM] + EOL && s[1..] == EOL && EOL[1..] == "\n" && "\n"[1..] == "";
    assert [] + [""] == [""] && [] + [[""]] == [[""]];
  }

  // ----- When the reader returns exactly what was written -----

  /** The records as written: separators are one empty field. */
  function WrittenFrom(sections: seq<Section>): seq<seq<string>> {
    if sections == [] then []
    else
      var n := |sections| - 1;
      WrittenFrom(sections[..n]) + (if n > 0 then [[""]] else []) + SectionTexts(SectionRecords(sections[n]))
  }

  function SectionTexts(records: seq<seq<Cell>>): seq<seq<string>> {
    seq(|records|, i requires 0 <= i < |records| => Texts(records[i]))
  }

  /** No column list and no row without a field. */
  ghost predicate NoEmptyRecord(sections: seq<Section>) {
    forall s <- sections :: forall r <- SectionRecords(s) :: r != []
  }

  lemma ReadBackSplit(a: seq<seq<Cell>>, b: seq<seq<Cell>>, c: seq<seq<Cell>>)
    ensures ReadBackAll(a + b + c) == ReadBackAll(a) + ReadBackAll(b) + ReadBackAll(c)
  {}

  lemma NoEmptySplit(init: seq<Section>, last: Section)
    ensures NoEmptyRecord(init + [last]) <==> NoEmptyRecord(init) && forall r <- SectionRecords(last) :: r != []
  {
    assert forall s :: s in init + [last] <==> s in init || s == last;
  }

  lemma {:induction false} WrittenShape(sections: seq<Section>)
    ensures |WrittenFrom(sections)| == |Records(sections)|
    ensures ReadBackAll(Records(sections)) == WrittenFrom(sections) <==> NoEmptyRecord(sections)
    decreases |sections|
  {
    if sections == [] {
    } else {
      var n := |sections| - 1;
      var init, last := sections[..n], SectionRecords(sections[n]);
      var gap: seq<seq<Cell>>, blank: seq<seq<string>> := if n > 0 then [[]] else [], if n > 0 then [[""]] else [];
      WrittenShape(init);
      assert sections == init + [sections[n]];
      NoEmptySplit(init, sections[n]);
      assert ReadBackAll(gap) == blank;
      AddedSection(Records(init), WrittenFrom(init), gap, blank, last);
    }
  }

  /** One more section reads back as written exactly when what is before it does and no record of
      its own is empty. */
  lemma AddedSection(init: seq<seq<Cell>>, written: seq<seq<string>>, gap: seq<seq<Cell>>, blank: seq<seq<string>>,
      last: seq<seq<Cell>>)
    requires |init| == |written| && ReadBackAll(gap) == blank
    ensures |init + gap + last| == |written + blank + SectionTexts(last)|
    ensures ReadBackAll(init + gap + last) == written + blank + SectionTexts(last)
       <==> ReadBackAll(init) == written && forall r <- last :: r != []
  {
    ReadBackSplit(init, gap, last);
    TextsMatch(last);
    SplitEqual(ReadBackAll(init), ReadBackAll(gap), ReadBackAll(last), written, blank, SectionTexts(last));
  }

  lemma TextsMatch(records: seq<seq<Cell>>)
    ensures ReadBackAll(records) == SectionTexts(records) <==> forall r <- records :: r != []
  {
    if exists r <- records :: r == [] {
      var i :| 0 <= i < |records| && records[i] == [];
      assert ReadBackAll(records)[i] == [""] && SectionTexts(records)[i] == [];
    } else {
      forall i | 0 <= i < |records| ensures ReadBackAll(records)[i] == SectionTexts(records)[i] {
        assert records[i] in records;
      }
    }
  }

  lemma SplitEqual<T>(a: seq<T>, b: seq<T>, c: seq<T>, d: seq<T>, e: seq<T>, f: seq<T>)
    requires |a| == |d| && |b| == |e| && |c| == |f|
    ensures a + b + c == d + e + f <==> a == d && b == e && c == f
  {
    if a + b + c == d + e + f {
      assert a == (a + b + c)[..|a|] && d == (d + e + f)[..|d|];
      assert b == (a + b + c)[|a|..|a| + |b|] && e == (d + e + f)[|d|..|d| + |e|];
      assert c == (a + b + c)[|a| + |b|..] && f == (d + e + f)[|d| + |e|..];
    }
  }

  /** The reader returns exactly the records written iff there is a section and no column
      list or row is empty. */
  lemma RoundTripExact(sections: seq<Section>)
    ensures ReadCsv(Csv(sections)) == Some(WrittenFrom(sections)) <==> sections != [] && NoEmptyRecord(sections)
  {
    if sections == [] {
      RoundTripNothing();
    } else {
      RoundTrip(sections);
      ExpectedIs(sections);
      WrittenShape(sections);
    }
  }

  // ----- Money -----

  function CentavosToPesos(c: Option<int>): string {
    if c.None? then ""
    else
      var abs := Abs(c.value);
      (if c.value < 0 then "-" else "") + Show(abs / 100) + "." + Pad(abs % 100, 2)
  }

  /** Reads an unsigned amount printed with two decimals. */
  function Unsigned(s: string): Option<int> {
    var n := |s|;
    if n < 4 || s[n - 3] != '.' || !AllDigits(s[..n - 3]) || !AllDigits(s[n - 2..]) then None
    else Some(100 * Value(s[..n - 3]) + Value(s[n - 2..]))
  }

  function PesosToCentavos(s: string): Option<int> {
    if s != "" && s[0] == '-' then
      var c := Unsigned(s[1..]);
      if c.Some? then Some(-c.value) else None
    else
      var c := Unsigned(s);
      if c.Some? then Some(c.value) else None
  }

  /** An exported amount reads back to the centavo, and only an unknown one is blank. */
  lemma PesosRoundTrip(c: Option<int>)
    ensures PesosToCentavos(CentavosToPesos(c)) == c
    ensures CentavosToPesos(c) == "" <==> c.None?
  {
    if c.Some? {
      var abs := Abs(c.value);
      UnsignedReads(abs / 100, abs % 100);
      var body := Show(abs / 100) + "." + Pad(abs % 100, 2);
      assert CentavosToPesos(c) == (if c.value < 0 then "-" else "") + body;
      assert "" + body == body && ("-" + body)[1..] == body;
    }
  }

  lemma UnsignedReads(pesos: nat, cents: nat)
    requires cents < 100
    ensures var body := Show(pesos) + "." + Pad(cents, 2);
            |body| > 0 && body[0] != '-' && Unsigned(body) == Some(100 * pesos + cents)
  {
    var whole, part := Show(pesos), Pad(cents, 2);
    var body := whole + "." + part;
    ShowValue(pesos);
    assert Pow10(2) == 100;
    PadValue(cents, 2);
    var n := |body|;
    assert body[..n - 3] == whole && body[n - 3] == '.' && body[n - 2..] == part;
    assert IsDigit(whole[0]) && body[0] == whole[0];
  }
}
