/**
 * The rows `relatorio` hands to `csv.writer(...).writerows` (app.py:185-186):
 * a fixed header followed by the fetched report rows, one per record, each as
 * the tuple `(id, aluno, professor, nota, datahora)` the SELECT returns.
 */
module CsvExport {
  import opened Wrappers
  import opened Records

  /** One CSV field before it is rendered as text; NULL is written as an empty field. */
  datatype Cell = IntCell(i: int) | TextCell(s: string) | RealCell(r: real) | NullCell

  /** The header row: four titles, while every data row has five fields (the id comes first). */
  const Header: seq<Cell> := [TextCell("Aluno"), TextCell("Professor"), TextCell("Nota"), TextCell("DataHora")]

  /** The fields of one fetched row, in SELECT order. */
  function RowCells(r: Row): seq<Cell> {
    [IntCell(r.id),
     if r.aluno.Some? then TextCell(r.aluno.value) else NullCell,
     TextCell(r.professor),
     RealCell(r.nota),
     TextCell(r.datahora)]
  }

  /** Reads the fields of one data row back as a record; None if they do not have the row's shape. */
  function CellsRow(cells: seq<Cell>): Option<Row> {
    if |cells| != 5 then None
    else match (cells[0], cells[1], cells[2], cells[3], cells[4])
      case (IntCell(id), TextCell(a), TextCell(p), RealCell(n), TextCell(d)) => Some(Row(id, Some(a), p, n, d))
      case (IntCell(id), NullCell, TextCell(p), RealCell(n), TextCell(d)) => Some(Row(id, None, p, n, d))
      case _ => None
  }

  /** The data rows of an export, one per record, in the order given. */
  function DataRows(registros: seq<Row>): seq<seq<Cell>> {
    if registros == [] then [] else [RowCells(registros[0])] + DataRows(registros[1..])
  }

  /**
   * Everything written to the export: the header, then the records in the
   * order the query returned them.
   */
  function ExportRows(registros: seq<Row>): (out: seq<seq<Cell>>)
    ensures |out| == 1 + |registros|
    ensures out[0] == Header && |out[0]| == 4
    ensures forall k :: 0 < k < |out| ==> |out[k]| == 5 && CellsRow(out[k]) == Some(registros[k - 1])
  {
    DataRowsShape(registros);
    [Header] + DataRows(registros)
  }

  /** Reads an export back: the header must come first, then every data row must decode. */
  function ParseExport(rows: seq<seq<Cell>>): Option<seq<Row>> {
    if rows == [] || rows[0] != Header then None else ParseDataRows(rows[1..])
  }

  /** Reads the data rows back as records, in order; None if any row does not decode. */
  function ParseDataRows(rows: seq<seq<Cell>>): Option<seq<Row>> {
    if rows == [] then Some([])
    else match (CellsRow(rows[0]), ParseDataRows(rows[1..]))
      case (Some(r), Some(rs)) => Some([r] + rs)
      case _ => None
  }

  /** Decoding a row's fields gives back the row. */
  lemma RowCellsRoundTrip(r: Row)
    ensures CellsRow(RowCells(r)) == Some(r)
  {
  }

  /** The data rows correspond one to one, and in order, with the records. */
  lemma {:induction false} DataRowsShape(registros: seq<Row>)
    ensures |DataRows(registros)| == |registros|
    ensures forall k :: 0 <= k < |registros| ==> DataRows(registros)[k] == RowCells(registros[k])
    decreases |registros|
  {
    if registros != [] {
      DataRowsShape(registros[1..]);
    }
  }

  /** Reading the data rows back gives the records, in the same order. */
  lemma {:induction false} DataRowsRoundTrip(registros: seq<Row>)
    ensures ParseDataRows(DataRows(registros)) == Some(registros)
    decreases |registros|
  {
    if registros != [] {
      var rows := DataRows(registros);
      assert rows[0] == RowCells(registros[0]) && rows[1..] == DataRows(registros[1..]);
      RowCellsRoundTrip(registros[0]);
      DataRowsRoundTrip(registros[1..]);
      assert [registros[0]] + registros[1..] == registros;
    }
  }

  /** Reading an export back gives exactly the exported records, in the same order. */
  lemma ExportRoundTrip(registros: seq<Row>)
    ensures ParseExport(ExportRows(registros)) == Some(registros)
  {
    var out := ExportRows(registros);
    assert out[1..] == DataRows(registros);
    DataRowsRoundTrip(registros);
  }
}
