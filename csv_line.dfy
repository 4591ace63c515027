/** The quote-aware tokenizer for one CSV line (`parseCSVLine`). A double quote
    toggles "inside a quoted segment"; a comma outside quotes ends a field; a comma
    inside quotes is part of the field; quote characters are dropped; every field
    is trimmed. Doubled quotes (`""`) are not an escape: they toggle twice. */
module CsvLine {
  import opened Text

  /** The untrimmed fields of `s` when the scan starts inside (`inQuotes`) or
      outside a quoted segment. This is the reference meaning of the tokenizer,
      written right to left; the method below scans left to right. */
  function RawFields(s: string, inQuotes: bool): (r: seq<string>)
    ensures |r| >= 1
  {
    if s == [] then [""]
    else if s[0] == '"' then RawFields(s[1..], !inQuotes)
    else
      var rest := RawFields(s[1..], inQuotes);
      if s[0] == ',' && !inQuotes then [""] + rest
      else [[s[0]] + rest[0]] + rest[1..]
  }

  /** Trims every element, keeping their order. */
  function TrimAll(xs: seq<string>): seq<string> {
    seq(|xs|, i requires 0 <= i < |xs| => Trim(xs[i]))
  }

  /** The fields of a line, as `parseCSVLine` returns them. */
  function Fields(line: string): seq<string> {
    TrimAll(RawFields(line, false))
  }

  /** What remains to be emitted once the fields in `done` are finished, `current`
      is the partial field, and `pending` are the raw fields of the rest of the line. */
  function Emitted(done: seq<string>, current: string, pending: seq<string>): seq<string>
    requires |pending| >= 1
  {
    done + TrimAll([current + pending[0]] + pending[1..])
  }

  /** Trimming a list with a given head. */
  lemma TrimAllCons(x: string, ys: seq<string>)
    ensures TrimAll([x] + ys) == [Trim(x)] + TrimAll(ys)
  {
    var l := TrimAll([x] + ys);
    var r := [Trim(x)] + TrimAll(ys);
    assert |l| == |r|;
    forall i | 0 <= i < |l| ensures l[i] == r[i] {
      if i > 0 {
        assert ([x] + ys)[i] == ys[i - 1];
      }
    }
  }

  /** Moving one finished field from the front of a list to the end of another. */
  lemma ShiftOne(done: seq<string>, x: string, ys: seq<string>)
    ensures done + ([x] + ys) == (done + [x]) + ys
  {
  }

  /** A comma outside quotes finishes the current field and starts an empty one. */
  lemma EmittedDelimiter(done: seq<string>, current: string, s: string)
    requires s != [] && s[0] == ','
    ensures Emitted(done, current, RawFields(s, false)) ==
      Emitted(done + [Trim(current)], "", RawFields(s[1..], false))
  {
    var rest := RawFields(s[1..], false);
    var pending := [""] + rest;
    assert RawFields(s, false) == pending;
    assert pending[0] == "" && pending[1..] == rest;
    assert current + "" == current;
    assert "" + rest[0] == rest[0];
    assert [rest[0]] + rest[1..] == rest;
    TrimAllCons(current, rest);
    ShiftOne(done, Trim(current), TrimAll(rest));
  }

  /** Any other character except a quote is appended to the current field. */
  lemma EmittedOrdinary(done: seq<string>, current: string, s: string, inQuotes: bool)
    requires s != [] && s[0] != '"' && !(s[0] == ',' && !inQuotes)
    ensures Emitted(done, current, RawFields(s, inQuotes)) ==
      Emitted(done, current + [s[0]], RawFields(s[1..], inQuotes))
  {
    var rest := RawFields(s[1..], inQuotes);
    assert RawFields(s, inQuotes) == [[s[0]] + rest[0]] + rest[1..];
    assert current + ([s[0]] + rest[0]) == (current + [s[0]]) + rest[0];
  }

  /** `parseCSVLine`: one pass over the characters with the `inQuotes` flag and the
      `current` buffer; it returns exactly the reference fields of the line. */
  method ParseCsvLine(line: string) returns (result: seq<string>)
    ensures result == Fields(line)
  {
    result := [];
    var current := "";
    var inQuotes := false;
    assert line[0..] == line;
    var first := RawFields(line, false);
    assert current + first[0] == first[0];
    assert [first[0]] + first[1..] == first;
    for i := 0 to |line|
      invariant Emitted(result, current, RawFields(line[i..], inQuotes)) == Fields(line)
    {
      var c := line[i];
      assert line[i..][1..] == line[i + 1..];
      if c == '"' {
        inQuotes := !inQuotes;
      } else if c == ',' && !inQuotes {
        EmittedDelimiter(result, current, line[i..]);
        result := result + [Trim(current)];
        current := "";
      } else {
        EmittedOrdinary(result, current, line[i..], inQuotes);
        current := current + [c];
      }
    }
    assert line[|line|..] == [];
    assert current + "" == current;
    result := result + [Trim(current)];
  }

  /** Number of double quotes in `s`. */
  function QuoteCount(s: string): nat {
    multiset(s)['"']
  }

  /** Position `i` of `line` is a field delimiter: a comma preceded by an even
      number of quotes, i.e. seen while the scan is not inside quotes. */
  predicate IsDelimiter(line: string, i: int)
    requires 0 <= i < |line|
  {
    line[i] == ',' && QuoteCount(line[..i]) % 2 == 0
  }

  /** Number of delimiters at positions `k` and later. */
  function DelimitersFrom(line: string, k: nat): nat
    requires k <= |line|
    decreases |line| - k
  {
    if k == |line| then 0
    else (if IsDelimiter(line, k) then 1 else 0) + DelimitersFrom(line, k + 1)
  }

  /** Scanning the rest of the line from position `k`, with the quote state that
      the first `k` characters leave, yields one field per later delimiter, plus one. */
  lemma {:induction false} RawFieldsCountFrom(line: string, k: nat)
    requires k <= |line|
    ensures |RawFields(line[k..], QuoteCount(line[..k]) % 2 == 1)| == DelimitersFrom(line, k) + 1
    decreases |line| - k
  {
    if k < |line| {
      RawFieldsCountFrom(line, k + 1);
      assert line[k..][1..] == line[k + 1..];
      assert line[..k + 1] == line[..k] + [line[k]];
    }
  }

  /** `parseCSVLine` returns one more field than there are commas outside quotes;
      in particular it always returns at least one field. */
  lemma FieldCount(line: string)
    ensures |Fields(line)| == DelimitersFrom(line, 0) + 1
  {
    RawFieldsCountFrom(line, 0);
    assert line[0..] == line;
    assert QuoteCount(line[..0]) == 0 by {
      assert line[..0] == [];
    }
  }

  /** `s` with every double quote removed. */
  function Unquoted(s: string): string {
    if s == [] then []
    else (if s[0] == '"' then [] else [s[0]]) + Unquoted(s[1..])
  }

  /** Tokenizing loses nothing but the quotes: re-joining the raw fields with commas
      gives back the line without its quote characters. So every comma of the line
      is either a delimiter or still inside a field. */
  lemma {:induction false} RawFieldsKeepText(s: string, inQuotes: bool)
    ensures Join(RawFields(s, inQuotes), ",") == Unquoted(s)
  {
    if s != [] {
      var q' := if s[0] == '"' then !inQuotes else inQuotes;
      var rest := RawFields(s[1..], q');
      RawFieldsKeepText(s[1..], q');
      if s[0] == '"' {
      } else if s[0] == ',' && !inQuotes {
        assert ([""] + rest)[1..] == rest;
      } else {
        var r := [[s[0]] + rest[0]] + rest[1..];
        if |rest| > 1 {
          assert r[1..] == rest[1..];
          assert Join(rest, ",") == rest[0] + "," + Join(rest[1..], ",");
        }
      }
    }
  }

  /** No raw field holds a double quote. */
  lemma {:induction false} RawFieldsUnquoted(s: string, inQuotes: bool)
    ensures forall i :: 0 <= i < |RawFields(s, inQuotes)| ==> '"' !in RawFields(s, inQuotes)[i]
  {
    if s != [] {
      var q' := if s[0] == '"' then !inQuotes else inQuotes;
      RawFieldsUnquoted(s[1..], q');
    }
  }

  /** Every field `parseCSVLine` returns is the trim of the matching raw field,
      so it has no whitespace at either end and no double quote in it. */
  lemma FieldsTrimmedAndUnquoted(line: string)
    ensures |Fields(line)| == |RawFields(line, false)|
    ensures forall i :: 0 <= i < |Fields(line)| ==>
      Fields(line)[i] == Trim(RawFields(line, false)[i]) &&
      IsTrimmed(Fields(line)[i]) && '"' !in Fields(line)[i]
  {
    var raw := RawFields(line, false);
    RawFieldsUnquoted(line, false);
    forall i | 0 <= i < |raw| ensures '"' !in Fields(line)[i] {
      TrimKeepsAbsent(raw[i], '"');
    }
  }

  /** A stretch free of quotes, and free of commas unless the scan is inside quotes,
      joins the front of the first field of what follows it. */
  lemma {:induction false} RawFieldsPrefix(x: string, u: string, inQuotes: bool)
    requires '"' !in x
    requires !inQuotes ==> ',' !in x
    ensures RawFields(x + u, inQuotes) ==
      [x + RawFields(u, inQuotes)[0]] + RawFields(u, inQuotes)[1..]
  {
    var r := RawFields(u, inQuotes);
    if x != [] {
      assert (x + u)[1..] == x[1..] + u;
      RawFieldsPrefix(x[1..], u, inQuotes);
      assert ([x[1..] + r[0]] + r[1..])[1..] == r[1..];
      assert [x[0]] + (x[1..] + r[0]) == x + r[0];
    } else {
      assert x + u == u;
      assert x + r[0] == r[0];
      assert [r[0]] + r[1..] == r;
    }
  }

  /** How a spreadsheet export writes one cell: wrapped in quotes when it holds a comma. */
  function EncodeCell(cell: string): string {
    if ',' in cell then "\"" + cell + "\"" else cell
  }

  /** Encodes every cell, keeping their order. */
  function EncodeCells(cells: seq<string>): (r: seq<string>)
    ensures |r| == |cells|
    ensures forall i :: 0 <= i < |r| ==> r[i] == EncodeCell(cells[i])
  {
    if cells == [] then [] else [EncodeCell(cells[0])] + EncodeCells(cells[1..])
  }

  /** One CSV line holding `cells`. */
  function EncodeLine(cells: seq<string>): string {
    Join(EncodeCells(cells), ",")
  }

  /** A cell the tokenizer can carry unchanged: no quote, no surrounding whitespace. */
  predicate PlainCell(cell: string) {
    '"' !in cell && IsTrimmed(cell)
  }

  /** An encoded cell followed by more text contributes exactly itself as the first raw field. */
  lemma EncodedCellPrefix(cell: string, u: string)
    requires '"' !in cell
    ensures RawFields(EncodeCell(cell) + u, false) ==
      [cell + RawFields(u, false)[0]] + RawFields(u, false)[1..]
  {
    if ',' in cell {
      var q := "\"";
      assert EncodeCell(cell) + u == q + (cell + (q + u));
      assert (q + (cell + (q + u)))[1..] == cell + (q + u);
      RawFieldsPrefix(cell, q + u, true);
      assert (q + u)[1..] == u;
    } else {
      RawFieldsPrefix(cell, u, false);
    }
  }

  /** The raw fields of an encoded line are its cells. */
  lemma {:induction false} RawFieldsOfEncodedLine(cells: seq<string>)
    requires |cells| >= 1
    requires forall i :: 0 <= i < |cells| ==> '"' !in cells[i]
    ensures RawFields(EncodeLine(cells), false) == cells
  {
    var enc := EncodeCells(cells);
    if |cells| == 1 {
      EncodedCellPrefix(cells[0], "");
      assert enc[0] + "" == enc[0];
      assert cells[0] + "" == cells[0];
    } else {
      var tail := EncodeLine(cells[1..]);
      assert enc[1..] == EncodeCells(cells[1..]);
      RawFieldsOfEncodedLine(cells[1..]);
      assert EncodeLine(cells) == enc[0] + ("," + tail);
      EncodedCellPrefix(cells[0], "," + tail);
      assert ("," + tail)[1..] == tail;
      assert RawFields("," + tail, false) == [""] + cells[1..];
      assert cells[0] + "" == cells[0];
      assert [cells[0]] + cells[1..] == cells;
    }
  }

  /** Round trip: tokenizing a line written by the exporter gives back its cells,
      commas inside quoted cells included. */
  lemma LineRoundTrip(cells: seq<string>)
    requires |cells| >= 1
    requires forall i :: 0 <= i < |cells| ==> PlainCell(cells[i])
    ensures Fields(EncodeLine(cells)) == cells
  {
    RawFieldsOfEncodedLine(cells);
    TrimAllFixed(cells);
  }

  /** Trimming already-trimmed strings changes nothing. */
  lemma {:induction false} TrimAllFixed(xs: seq<string>)
    requires forall i :: 0 <= i < |xs| ==> IsTrimmed(xs[i])
    ensures TrimAll(xs) == xs
  {
    if xs != [] {
      TrimmedIsFixed(xs[0]);
      TrimAllFixed(xs[1..]);
    }
  }

  /** An encoded line of plain cells has no whitespace at either end. */
  lemma {:induction false} EncodedLineTrimmed(cells: seq<string>)
    requires |cells| >= 1
    requires forall i :: 0 <= i < |cells| ==> PlainCell(cells[i])
    ensures IsTrimmed(EncodeLine(cells))
  {
    var enc := EncodeCells(cells);
    if |cells| > 1 {
      assert enc[1..] == EncodeCells(cells[1..]);
      EncodedLineTrimmed(cells[1..]);
    }
  }

  /** An encoded line holds a character only if some cell, the comma or the quote does. */
  lemma EncodedLineKeepsAbsent(cells: seq<string>, c: char)
    requires c != ',' && c != '"'
    requires forall i :: 0 <= i < |cells| ==> c !in cells[i]
    ensures c !in EncodeLine(cells)
  {
    JoinKeepsAbsent(EncodeCells(cells), ",", c);
  }
}
