/** The catalog records and the CSV-to-record parser (`parseCSV`). */
module Catalog {
  import opened Text
  import opened CsvLine

  /** One product row (`PerfumeData`); fields in the order the record type declares them. */
  datatype Perfume = Perfume(
    nome: string,
    marca: string,
    genero: string,
    concentracao: string,
    notasTopo: string,
    notasCoracao: string,
    notasFundo: string,
    familiaOlfativa: string,
    perfil: string,
    silage: string,
    duracao: string,
    tamanhoMl: string,
    sazonalidade: string,
    ocasioes: string,
    preco: string,
    disponibilidade: string)

  /** Fewest fields a line must yield to become a record. */
  const MinFields := 6

  /** Availability given to a row whose availability cell is missing or empty. */
  const DefaultAvailability := "Disponível"

  /** `values[k] || fallback`: a missing or empty cell becomes `fallback`. */
  function CellOr(values: seq<string>, k: nat, fallback: string): string {
    if k < |values| && values[k] != "" then values[k] else fallback
  }

  /** The field of `p` that the sheet holds in column `k`: name in 1, brand in 2, and so
      on, with price in 13, availability in 14, seasonality in 15 and occasions in 16. */
  function Column(p: Perfume, k: int): string
    requires 1 <= k <= 16
  {
    match k
    case 1 => p.nome
    case 2 => p.marca
    case 3 => p.genero
    case 4 => p.concentracao
    case 5 => p.notasTopo
    case 6 => p.notasCoracao
    case 7 => p.notasFundo
    case 8 => p.familiaOlfativa
    case 9 => p.perfil
    case 10 => p.silage
    case 11 => p.duracao
    case 12 => p.tamanhoMl
    case 13 => p.preco
    case 14 => p.disponibilidade
    case 15 => p.sazonalidade
    case _ => p.ocasioes
  }

  /** The positional mapping of one tokenized row into a record. Position 0 (the
      sheet's index column) is not used. Every other column that is present and
      non-empty is copied into its field. A missing or empty column gives `""`, except
      availability, which gives `Disponível`. */
  function ToPerfume(values: seq<string>): (p: Perfume)
    ensures forall k :: 1 <= k <= 16 && k < |values| && values[k] != "" ==> Column(p, k) == values[k]
    ensures forall k :: 1 <= k <= 16 && k != 14 && (|values| <= k || values[k] == "") ==> Column(p, k) == ""
    ensures |values| <= 14 || values[14] == "" ==> p.disponibilidade == DefaultAvailability
    ensures p.disponibilidade != ""
  {
    Perfume(
      nome := CellOr(values, 1, ""),
      marca := CellOr(values, 2, ""),
      genero := CellOr(values, 3, ""),
      concentracao := CellOr(values, 4, ""),
      notasTopo := CellOr(values, 5, ""),
      notasCoracao := CellOr(values, 6, ""),
      notasFundo := CellOr(values, 7, ""),
      familiaOlfativa := CellOr(values, 8, ""),
      perfil := CellOr(values, 9, ""),
      silage := CellOr(values, 10, ""),
      duracao := CellOr(values, 11, ""),
      tamanhoMl := CellOr(values, 12, ""),
      preco := CellOr(values, 13, ""),
      disponibilidade := CellOr(values, 14, DefaultAvailability),
      sazonalidade := CellOr(values, 15, ""),
      ocasioes := CellOr(values, 16, ""))
  }

  /** A line becomes a record when, once trimmed, it is not blank and yields at least six fields. */
  predicate KeepsLine(line: string) {
    Trim(line) != "" && |Fields(Trim(line))| >= MinFields
  }

  /** What one (non-header) line contributes: its record, or nothing. */
  function RowOf(line: string): seq<Perfume> {
    if KeepsLine(line) then [ToPerfume(Fields(Trim(line)))] else []
  }

  /** The records of a run of lines, in line order. */
  function RowsOf(lines: seq<string>): (r: seq<Perfume>)
    ensures |r| <= |lines|
  {
    if lines == [] then []
    else RowsOf(lines[..|lines| - 1]) + RowOf(lines[|lines| - 1])
  }

  /** The catalog a CSV text describes: its lines after the first (the header). */
  function CatalogOf(text: string): seq<Perfume> {
    RowsOf(Split(text, '\n')[1..])
  }

  /** `parseCSV`: one pass over the lines after the header, tokenizing each
      non-blank trimmed line and keeping those with at least six fields. */
  method ParseCsv(text: string) returns (data: seq<Perfume>)
    ensures data == CatalogOf(text)
  {
    var lines := Split(text, '\n');
    data := [];
    for i := 1 to |lines|
      invariant data == RowsOf(lines[1..i])
    {
      RowsStep(lines, i);
      var line := Trim(lines[i]);
      if line == "" {
        RowOfBlank(lines[i]);
      } else {
        var values := ParseCsvLine(line);
        RowOfValues(lines[i], values);
        if |values| >= MinFields {
          data := data + [ToPerfume(values)];
        }
      }
    }
    assert lines[1..|lines|] == lines[1..];
  }

  /** One more line of the loop adds that line's contribution. */
  lemma RowsStep(lines: seq<string>, i: nat)
    requires 1 <= i < |lines|
    ensures RowsOf(lines[1..i + 1]) == RowsOf(lines[1..i]) + RowOf(lines[i])
  {
    assert lines[1..i + 1] == lines[1..i] + [lines[i]];
    RowsSnoc(lines[1..i], lines[i]);
  }

  /** A line that is blank once trimmed contributes nothing. */
  lemma RowOfBlank(line: string)
    requires Trim(line) == ""
    ensures RowOf(line) == []
  {
  }

  /** A non-blank line contributes the record of its fields when there are enough of them. */
  lemma RowOfValues(line: string, values: seq<string>)
    requires Trim(line) != "" && values == Fields(Trim(line))
    ensures RowOf(line) == if |values| >= MinFields then [ToPerfume(values)] else []
  {
  }

  /** Extending a run of lines by one line appends that line's contribution. */
  lemma RowsSnoc(lines: seq<string>, line: string)
    ensures RowsOf(lines + [line]) == RowsOf(lines) + RowOf(line)
  {
    assert (lines + [line])[..|lines|] == lines;
  }

  /** The records of consecutive runs of lines are the records of each run, one after the other. */
  lemma {:induction false} RowsOfAppend(a: seq<string>, b: seq<string>)
    ensures RowsOf(a + b) == RowsOf(a) + RowsOf(b)
    decreases |b|
  {
    if b == [] {
      assert a + b == a;
    } else {
      var b' := b[..|b| - 1];
      assert (a + b)[..|a + b| - 1] == a + b';
      RowsOfAppend(a, b');
    }
  }

  /** The first line's contribution comes first. */
  lemma RowsOfCons(line: string, rest: seq<string>)
    ensures RowsOf([line] + rest) == RowOf(line) + RowsOf(rest)
  {
    RowsOfAppend([line], rest);
    RowsOfSingle(line);
  }

  /** A single line contributes its own record or nothing. */
  lemma RowsOfSingle(line: string)
    ensures RowsOf([line]) == RowOf(line)
  {
    assert [line][..0] == [];
  }

  /** A blank line, or one with fewer than six fields, contributes nothing
      wherever it stands. */
  lemma DroppedLine(before: seq<string>, line: string, after: seq<string>)
    requires Trim(line) == "" || |Fields(Trim(line))| < MinFields
    ensures RowsOf(before + [line] + after) == RowsOf(before + after)
  {
    var left := before + [line];
    RowsOfAppend(left, after);
    RowsSnoc(before, line);
    assert RowOf(line) == [];
    RowsOfAppend(before, after);
    assert RowsOf(before) + [] == RowsOf(before);
  }

  /** At most one record per line after the header. */
  lemma CatalogBound(text: string)
    ensures |CatalogOf(text)| <= multiset(text)['\n']
  {
  }

  /** The header line is skipped whatever it says. */
  lemma HeaderIgnored(header1: string, header2: string, body: string)
    requires '\n' !in header1 && '\n' !in header2
    ensures CatalogOf(header1 + "\n" + body) == CatalogOf(header2 + "\n" + body)
  {
    SplitPrefix(header1, "\n" + body, '\n');
    SplitPrefix(header2, "\n" + body, '\n');
    assert ("\n" + body)[1..] == body;
    assert header1 + "\n" + body == header1 + ("\n" + body);
    assert header2 + "\n" + body == header2 + ("\n" + body);
  }

  /** The cells of a record as the sheet lays them out: index, then the columns
      in the order the mapping reads them. */
  function CellsOf(index: string, p: Perfume): seq<string> {
    [index, p.nome, p.marca, p.genero, p.concentracao, p.notasTopo, p.notasCoracao,
     p.notasFundo, p.familiaOlfativa, p.perfil, p.silage, p.duracao, p.tamanhoMl,
     p.preco, p.disponibilidade, p.sazonalidade, p.ocasioes]
  }

  /** A cell the sheet can hold and the parser can read back: plain, and on one line. */
  predicate SheetCell(cell: string) {
    PlainCell(cell) && '\n' !in cell
  }

  /** A record whose every cell is a sheet cell and whose availability is given. */
  predicate Exportable(index: string, p: Perfume) {
    p.disponibilidade != "" &&
    forall i :: 0 <= i < |CellsOf(index, p)| ==> SheetCell(CellsOf(index, p)[i])
  }

  /** The lines of a sheet holding `ps`, one per record, without the header. */
  function EncodeRows(indexes: seq<string>, ps: seq<Perfume>): (r: seq<string>)
    requires |indexes| == |ps|
    ensures |r| == |ps|
    ensures forall i :: 0 <= i < |r| ==> r[i] == EncodeLine(CellsOf(indexes[i], ps[i]))
  {
    if ps == [] then [] else [EncodeLine(CellsOf(indexes[0], ps[0]))] + EncodeRows(indexes[1..], ps[1..])
  }

  /** The CSV text of a sheet: a header line, then one line per record. */
  function EncodeSheet(header: string, indexes: seq<string>, ps: seq<Perfume>): string
    requires |indexes| == |ps|
  {
    Join([header] + EncodeRows(indexes, ps), "\n")
  }

  /** The mapping reads back every column of an exported record. */
  lemma ToPerfumeOfCells(index: string, p: Perfume)
    requires p.disponibilidade != ""
    ensures ToPerfume(CellsOf(index, p)) == p
  {
  }

  /** An exported record's line is kept and parses back to the record. */
  lemma RowRoundTrip(index: string, p: Perfume)
    requires Exportable(index, p)
    ensures RowOf(EncodeLine(CellsOf(index, p))) == [p]
  {
    var cells := CellsOf(index, p);
    var line := EncodeLine(cells);
    EncodedLineTrimmed(cells);
    TrimmedIsFixed(line);
    LineRoundTrip(cells);
    FieldCount(line);
    ToPerfumeOfCells(index, p);
  }

  /** Round trip for a whole sheet: parsing the CSV text exported from a list of
      records gives back exactly that list, in order. */
  lemma {:induction false} SheetRoundTrip(header: string, indexes: seq<string>, ps: seq<Perfume>)
    requires '\n' !in header
    requires |indexes| == |ps|
    requires forall i :: 0 <= i < |ps| ==> Exportable(indexes[i], ps[i])
    ensures CatalogOf(EncodeSheet(header, indexes, ps)) == ps
  {
    var rows := EncodeRows(indexes, ps);
    forall i | 0 <= i < |rows| ensures '\n' !in rows[i] {
      var cells := CellsOf(indexes[i], ps[i]);
      EncodedLineKeepsAbsent(cells, '\n');
    }
    SplitJoin([header] + rows, '\n');
    assert ([header] + rows)[1..] == rows;
    RowsOfEncoded(indexes, ps);
  }

  /** The records of exported lines are the exported records. */
  lemma {:induction false} RowsOfEncoded(indexes: seq<string>, ps: seq<Perfume>)
    requires |indexes| == |ps|
    requires forall i :: 0 <= i < |ps| ==> Exportable(indexes[i], ps[i])
    ensures RowsOf(EncodeRows(indexes, ps)) == ps
  {
    if ps != [] {
      var first := EncodeLine(CellsOf(indexes[0], ps[0]));
      var rest := EncodeRows(indexes[1..], ps[1..]);
      assert EncodeRows(indexes, ps) == [first] + rest;
      RowsOfEncoded(indexes[1..], ps[1..]);
      RowRoundTrip(indexes[0], ps[0]);
      RowsOfCons(first, rest);
      HeadTail(ps);
    }
  }

  /** A non-empty list is its head followed by its tail. */
  lemma HeadTail<T>(xs: seq<T>)
    requires xs != []
    ensures [xs[0]] + xs[1..] == xs
  {
  }
}
