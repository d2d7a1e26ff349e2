/**
 The scanner for Kea's lease files: one comma-separated line into its trimmed columns.
 */
module KeaCsv {
  import opened Wrappers
  import opened Text

  /** The columns still to come from `line`, given the column so far. */
  function Scan(line: string, current: string, inQuotes: bool): seq<string>
    decreases |line|
  {
    if line == "" then [Trim(current)]
    else if line[0] == '"' && inQuotes && |line| > 1 && line[1] == '"' then Scan(line[2..], current + ['"'], inQuotes)
    else if line[0] == '"' then Scan(line[1..], current, !inQuotes)
    else if line[0] == ',' && !inQuotes then [Trim(current)] + Scan(line[1..], "", inQuotes)
    else Scan(line[1..], current + [line[0]], inQuotes)
  }

  method ParseCsvLine(line: string) returns (cols: seq<string>)
    ensures cols == Scan(line, "", false)
  {
    cols := [];
    var current := "";
    var inQuotes := false;
    var i := 0;
    while i < |line|
      invariant i <= |line|
      invariant cols + Scan(line[i..], current, inQuotes) == Scan(line, "", false)
    {
      var ch := line[i];
      var next := if i + 1 < |line| then Some(line[i + 1]) else None;
      assert line[i..][1..] == line[i + 1..];
      assert i + 2 <= |line| ==> line[i..][2..] == line[i + 2..];
      i := i + 1;
      if ch == '"' && inQuotes && next == Some('"') {
        current := current + ['"'];
        i := i + 1;
      } else if ch == '"' {
        inQuotes := !inQuotes;
      } else if ch == ',' && !inQuotes {
        cols := cols + [Trim(current)];
        current := "";
      } else {
        current := current + [ch];
      }
    }
    cols := cols + [Trim(current)];
  }

  // ---------------------------------------------------------------------------
  // Printing, after section 2 of RFC 4180
  // ---------------------------------------------------------------------------

  /** A value and whether it is printed in quotes. */
  datatype Field = Field(value: string, quoted: bool)

  /** Quotes inside a quoted field are doubled. */
  function Doubled(s: string): string {
    if s == "" then "" else (if s[0] == '"' then ['"', '"'] else [s[0]]) + Doubled(s[1..])
  }

  /** A field with quotes, commas or line breaks has to be quoted; any other may be. */
  predicate Printable(f: Field) {
    !f.quoted ==> forall i :: 0 <= i < |f.value| ==> f.value[i] !in "\",\r\n"
  }

  function PrintField(f: Field): string {
    if f.quoted then ['"'] + (Doubled(f.value) + ['"']) else f.value
  }

  function PrintLine(fs: seq<Field>): string {
    if fs == [] then ""
    else if |fs| == 1 then PrintField(fs[0])
    else PrintField(fs[0]) + ([','] + PrintLine(fs[1..]))
  }

  function Values(fs: seq<Field>): seq<string> {
    seq(|fs|, i requires 0 <= i < |fs| => fs[i].value)
  }

  function TrimmedValues(fs: seq<Field>): seq<string> {
    seq(|fs|, i requires 0 <= i < |fs| => Trim(fs[i].value))
  }

  // ---------------------------------------------------------------------------
  // Round trip
  // ---------------------------------------------------------------------------

  lemma {:induction false} ScanQuoted(v: string, rest: string, current: string)
    requires rest == "" || rest[0] != '"'
    ensures Scan(Doubled(v) + (['"'] + rest), current, true) == Scan(rest, current + v, false)
    decreases |v|
  {
    var tail := ['"'] + rest;
    if v == "" {
      assert Doubled(v) + tail == tail;
      assert tail[1..] == rest;
      assert current + v == current;
    } else {
      var line := Doubled(v) + tail;
      ScanQuoted(v[1..], rest, current + [v[0]]);
      assert current + [v[0]] + v[1..] == current + v;
      if v[0] == '"' {
        assert line[2..] == Doubled(v[1..]) + tail;
      } else {
        assert line[1..] == Doubled(v[1..]) + tail;
      }
    }
  }

  lemma ScanField(f: Field, rest: string)
    requires Printable(f) && (rest == "" || rest[0] == ',')
    ensures Scan(PrintField(f) + rest, "", false) == Scan(rest, f.value, false)
  {
    assert "" + f.value == f.value;
    if f.quoted {
      var line := PrintField(f) + rest;
      assert line[1..] == Doubled(f.value) + (['"'] + rest);
      ScanQuoted(f.value, rest, "");
    } else {
      ScanPlainText(f.value, rest, "");
    }
  }

  /** Scanning a printed line gives the values back, each trimmed. */
  lemma {:induction false} ScanUndoesPrint(fs: seq<Field>)
    requires fs != [] && forall f :: f in fs ==> Printable(f)
    ensures Scan(PrintLine(fs), "", false) == TrimmedValues(fs)
    decreases |fs|
  {
    if |fs| == 1 {
      assert PrintField(fs[0]) + "" == PrintField(fs[0]);
      ScanField(fs[0], "");
    } else {
      var rest := [','] + PrintLine(fs[1..]);
      ScanField(fs[0], rest);
      assert rest[1..] == PrintLine(fs[1..]);
      ScanUndoesPrint(fs[1..]);
      assert TrimmedValues(fs) == [Trim(fs[0].value)] + TrimmedValues(fs[1..]);
    }
  }

  /** However the fields are printed, the scanner returns them exactly when there is a field at
      all and none has white space at either end (which section 2.4 of RFC 4180 would keep). */
  lemma RoundTripIff(fs: seq<Field>)
    requires forall f :: f in fs ==> Printable(f)
    ensures Scan(PrintLine(fs), "", false) == Values(fs) <==> fs != [] && forall f :: f in fs ==> Trimmed(f.value)
  {
    if fs != [] {
      ScanUndoesPrint(fs);
      forall i | 0 <= i < |fs| ensures TrimmedValues(fs)[i] == Values(fs)[i] <==> Trimmed(fs[i].value) {
        TrimFixpoint(fs[i].value);
      }
      if forall f :: f in fs ==> Trimmed(f.value) {
        assert forall i :: 0 <= i < |fs| ==> fs[i] in fs;
        assert TrimmedValues(fs) == Values(fs);
      }
    }
  }

  // ---------------------------------------------------------------------------
  // Lines no printer would print
  // ---------------------------------------------------------------------------

  /** A stretch of text outside or inside quotes. */
  datatype Piece = Plain(text: string) | InQuotes(text: string)

  /** Plain text has neither quotes nor commas, and no quoted text follows directly on another, as
      the two quotes between them would be one. */
  predicate WellPieced(ps: seq<Piece>) {
    && (forall p :: p in ps && p.Plain? ==> p.text != "" && '"' !in p.text && ',' !in p.text)
    && forall i :: 0 <= i < |ps| - 1 ==> ps[i].Plain? || ps[i + 1].Plain?
  }

  function PrintPiece(p: Piece): string {
    match p
    case Plain(text) => text
    case InQuotes(text) => ['"'] + (Doubled(text) + ['"'])
  }

  function PrintPieces(ps: seq<Piece>): string {
    if ps == [] then "" else PrintPiece(ps[0]) + PrintPieces(ps[1..])
  }

  function PiecesValue(ps: seq<Piece>): string {
    if ps == [] then "" else ps[0].text + PiecesValue(ps[1..])
  }

  lemma {:induction false} ScanPlainText(v: string, rest: string, current: string)
    requires '"' !in v && ',' !in v
    ensures Scan(v + rest, current, false) == Scan(rest, current + v, false)
    decreases |v|
  {
    if v == "" {
      assert v + rest == rest && current + v == current;
    } else {
      assert (v + rest)[1..] == v[1..] + rest;
      assert current + [v[0]] + v[1..] == current + v;
      ScanPlainText(v[1..], rest, current + [v[0]]);
    }
  }

  lemma ScanPiece(p: Piece, more: string, current: string)
    requires p.Plain? ==> '"' !in p.text && ',' !in p.text
    requires p.InQuotes? ==> more == "" || more[0] != '"'
    ensures Scan(PrintPiece(p) + more, current, false) == Scan(more, current + p.text, false)
  {
    match p
    case Plain(text) => ScanPlainText(text, more, current);
    case InQuotes(text) =>
      var line := PrintPiece(p) + more;
      assert line[1..] == Doubled(text) + (['"'] + more);
      ScanQuoted(text, more, current);
  }

  lemma Regrouped(a: string, b: string, c: string)
    ensures a + b + c == a + (b + c)
  {
  }

  lemma TailIsWellPieced(ps: seq<Piece>)
    requires ps != [] && WellPieced(ps)
    ensures WellPieced(ps[1..]) && (ps[0].Plain? ==> '"' !in ps[0].text && ',' !in ps[0].text)
  {
    var tail := ps[1..];
    assert forall i :: 0 <= i < |tail| ==> tail[i] == ps[i + 1];
    assert forall p :: p in tail ==> p in ps;
    assert ps[0] in ps;
  }

  /** Quotes may open and close anywhere in a column: they are dropped, and commas between them
      belong to the column. */
  lemma {:induction false} ScanPieces(ps: seq<Piece>, rest: string, current: string)
    requires WellPieced(ps) && (rest == "" || rest[0] != '"')
    ensures Scan(PrintPieces(ps) + rest, current, false) == Scan(rest, current + PiecesValue(ps), false)
    decreases |ps|
  {
    if ps == [] {
      assert PrintPieces(ps) + rest == rest && current + PiecesValue(ps) == current;
    } else {
      var first, tail := ps[0], ps[1..];
      var more := PrintPieces(tail) + rest;
      TailIsWellPieced(ps);
      if first.InQuotes? {
        AfterQuotes(ps, rest);
      }
      ScanPiece(first, more, current);
      ScanPieces(tail, rest, current + first.text);
      Regrouped(PrintPiece(first), PrintPieces(tail), rest);
      Regrouped(current, first.text, PiecesValue(tail));
    }
  }

  lemma AfterQuotes(ps: seq<Piece>, rest: string)
    requires WellPieced(ps) && ps != [] && ps[0].InQuotes? && (rest == "" || rest[0] != '"')
    ensures var more := PrintPieces(ps[1..]) + rest; more == "" || more[0] != '"'
  {
    if |ps| > 1 {
      assert ps[1].Plain? && ps[1] in ps;
      assert ps[1..][0] == ps[1];
      assert PrintPieces(ps[1..])[0] == ps[1].text[0];
      assert ps[1].text[0] in ps[1].text;
    }
  }

  /** A quote never closed takes the rest of the line, commas and all, into one column. */
  lemma UnclosedQuoteTakesTheRest(v: string)
    ensures Scan(['"'] + Doubled(v), "", false) == [Trim(v)]
  {
    assert (['"'] + Doubled(v))[1..] == Doubled(v);
    ScanUnclosed(v, "");
    assert "" + v == v;
  }

  lemma {:induction false} ScanUnclosed(v: string, current: string)
    ensures Scan(Doubled(v), current, true) == [Trim(current + v)]
    decreases |v|
  {
    if v == "" {
      assert current + v == current;
    } else {
      ScanUnclosed(v[1..], current + [v[0]]);
      assert current + [v[0]] + v[1..] == current + v;
      var line := Doubled(v);
      if v[0] == '"' {
        assert line[2..] == Doubled(v[1..]);
      } else {
        assert line[1..] == Doubled(v[1..]);
      }
    }
  }
}
