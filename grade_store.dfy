/**
 * The `notas` table and the request handlers that touch it: the insert of
 * `index` (app.py:133-149), the lookup and update of `editar_nota`
 * (app.py:196-217) and the query and export of `relatorio` (app.py:159-186).
 * The table is held in memory; the SERIAL counter is `nextId`.
 */
module GradeStore {
  import opened Wrappers
  import opened Records
  import opened ReportQuery
  import opened CsvExport

  /** What `float(...)` makes of the submitted text: an error, a finite number, or nan/inf. */
  datatype ParsedNota = Unparsable | Number(v: real) | NotFinite

  /** Why a submitted grade is refused. */
  datatype NotaError = InvalidNumber | OutOfRange

  /** The message shown for a refused grade. */
  function ErrorMessage(e: NotaError): string {
    match e
    case InvalidNumber => "Nota inválida."
    case OutOfRange => "A nota deve estar entre 0 e 10."
  }

  /** The text `editar_nota` answers with when the id is unknown. */
  const NotFoundMessage: string := "Nota não encontrada."

  /**
   * The check shared by insert and edit: a value that does not parse is
   * invalid; a parsed value is accepted exactly when 0 <= v <= 10 (nan and
   * the infinities fail that comparison and are out of range).
   */
  function CheckNota(p: ParsedNota): (r: Result<real, NotaError>)
    ensures r.Ok? <==> p.Number? && InRange(p.v)
    ensures r.Ok? ==> r.value == p.v
    ensures r == Err(InvalidNumber) <==> p.Unparsable?
  {
    match p
    case Unparsable => Err(InvalidNumber)
    case NotFinite => Err(OutOfRange)
    case Number(v) => if 0.0 <= v <= 10.0 then Ok(v) else Err(OutOfRange)
  }

  /** Two rows that agree on every column except `nota`. */
  predicate SameButNota(a: Row, b: Row) {
    a.id == b.id && a.aluno == b.aluno && a.professor == b.professor && a.datahora == b.datahora
  }

  /** `UPDATE notas SET nota = v WHERE id = id`. */
  function UpdateNota(rows: seq<Row>, id: int, v: real): (r: seq<Row>)
    ensures |r| == |rows|
    ensures forall k :: 0 <= k < |rows| && rows[k].id != id ==> r[k] == rows[k]
    ensures forall k :: 0 <= k < |rows| && rows[k].id == id ==> SameButNota(r[k], rows[k]) && r[k].nota == v
  {
    seq(|rows|, k requires 0 <= k < |rows| => if rows[k].id == id then rows[k].(nota := v) else rows[k])
  }

  /** Result of a grade submission. */
  datatype SubmitOutcome = Recorded(aluno: Option<string>, nota: real) | Rejected(error: NotaError)

  /** What the edit page reports about the submitted value. */
  datatype EditResult = Viewed | Updated(nota: real) | Failed(error: NotaError)

  /** Result of `editar_nota`; the page shows the row as it was read before any update. */
  datatype EditOutcome =
    | RedirectToIndex
    | NotFound
    | EditPage(aluno: Option<string>, professor: string, notaAtual: real, result: EditResult)

  /** Result of `relatorio`: the rows listed and, after a POST, the rows written to the export. */
  datatype ReportOutcome = ReportRedirect | Listing(registros: seq<Row>, csvRows: Option<seq<seq<Cell>>>)

  class GradeTable {
    var rows: seq<Row>
    var nextId: int

    /**
     * Ids are positive, increase along the table and stay below the next
     * SERIAL value; every stored grade passed the range check.
     */
    ghost predicate Valid()
      reads this
    {
      && 1 <= nextId
      && (forall k :: 0 <= k < |rows| ==> 1 <= rows[k].id < nextId && InRange(rows[k].nota))
      && (forall j, k :: 0 <= j < k < |rows| ==> rows[j].id < rows[k].id)
    }

    /** `CREATE TABLE notas`: empty, with the SERIAL sequence at 1. */
    constructor ()
      ensures Valid() && rows == [] && nextId == 1
    {
      rows := [];
      nextId := 1;
    }

    /**
     * The POST of `index`: a grade in range is inserted as one new row with
     * the next id, the logged-in user as professor and the given timestamp;
     * anything else leaves the table as it was.
     */
    method Submit(aluno: Option<string>, usuario: string, nota: ParsedNota, agora: string)
      returns (res: SubmitOutcome)
      requires Valid()
      modifies this
      ensures Valid()
      ensures res == match CheckNota(nota) case Ok(v) => Recorded(aluno, v) case Err(e) => Rejected(e)
      ensures res.Recorded? ==>
        rows == old(rows) + [Row(old(nextId), aluno, usuario, res.nota, agora)] && nextId == old(nextId) + 1
      ensures res.Rejected? ==> rows == old(rows) && nextId == old(nextId)
    {
      match CheckNota(nota) {
        case Ok(v) =>
          rows := rows + [Row(nextId, aluno, usuario, v, agora)];
          nextId := nextId + 1;
          res := Recorded(aluno, v);
        case Err(e) =>
          res := Rejected(e);
      }
    }

    /** `SELECT ... FROM notas WHERE id = %s`: the position of the row with that id. */
    method Find(id: int) returns (k: Option<nat>)
      ensures k.Some? ==> k.value < |rows| && rows[k.value].id == id
      ensures k.None? <==> !HasId(rows, id)
    {
      var i := 0;
      while i < |rows|
        invariant 0 <= i <= |rows|
        invariant forall j :: 0 <= j < i ==> rows[j].id != id
      {
        if rows[i].id == id {
          return Some(i);
        }
        i := i + 1;
      }
      return None;
    }

    /**
     * `editar_nota`: without report access the user is sent back to the
     * index; an unknown id gives the NotFound outcome (whose page text is
     * NotFoundMessage); otherwise the row is shown and, on a POST with a
     * grade in range, only that row's `nota` is rewritten. No other path
     * changes the table.
     */
    method Edit(acesso: bool, id: int, isPost: bool, nova: ParsedNota) returns (res: EditOutcome)
      requires Valid()
      modifies this
      ensures Valid() && nextId == old(nextId)
      ensures !acesso ==> res == RedirectToIndex
      ensures acesso && !HasId(old(rows), id) ==> res == NotFound
      ensures acesso && HasId(old(rows), id) ==> res.EditPage?
      ensures res.EditPage? ==>
                (exists k :: 0 <= k < |old(rows)| && old(rows)[k].id == id
                   && res.aluno == old(rows)[k].aluno && res.professor == old(rows)[k].professor
                   && res.notaAtual == old(rows)[k].nota)
      ensures res.EditPage? ==>
                res.result == (if !isPost then Viewed
                               else match CheckNota(nova) case Ok(v) => Updated(v) case Err(e) => Failed(e))
      ensures rows == if res.EditPage? && res.result.Updated? then UpdateNota(old(rows), id, res.result.nota)
                      else old(rows)
    {
      if !acesso {
        return RedirectToIndex;
      }
      var found := Find(id);
      if found.None? {
        return NotFound;
      }
      var k := found.value;
      var row := rows[k];
      var result := Viewed;
      if isPost {
        match CheckNota(nova) {
          case Ok(v) =>
            forall j | 0 <= j < |rows| && j != k ensures rows[j].id != id {
              if j < k { assert rows[j].id < rows[k].id; } else { assert rows[k].id < rows[j].id; }
            }
            assert rows[k := row.(nota := v)] == UpdateNota(rows, id, v);
            rows := rows[k := row.(nota := v)];
            result := Updated(v);
          case Err(e) =>
            result := Failed(e);
        }
      }
      res := EditPage(row.aluno, row.professor, row.nota, result);
    }

    /**
     * `cur.execute(query, params)` followed by `fetchall()`: the rows that
     * satisfy the bound query. None when the text is not a report query or
     * the parameter count does not match its placeholders.
     */
    method Execute(query: string, params: seq<string>) returns (res: Option<seq<Row>>)
      ensures res.None? <==> Bind(query, params).None?
      ensures res.Some? ==> res.value == Select(rows, Bind(query, params).value)
    {
      var bound := Bind(query, params);
      if bound.None? {
        return None;
      }
      var cs := bound.value;
      var out: seq<Row> := [];
      var i := 0;
      while i < |rows|
        invariant 0 <= i <= |rows|
        invariant out == Select(rows[..i], cs)
      {
        assert rows[..i + 1][..i] == rows[..i];
        if HoldsAll(cs, rows[i]) {
          out := out + [rows[i]];
        }
        i := i + 1;
      }
      assert rows[..|rows|] == rows;
      return Some(out);
    }

    /**
     * `relatorio`: without report access the user is sent back to the
     * index; a GET lists nothing; a POST builds the query from the form,
     * lists exactly the rows matching every non-empty field and exports
     * them after the header.
     */
    method Report(acesso: bool, isPost: bool, f: Filter) returns (res: ReportOutcome)
      ensures !acesso ==> res == ReportRedirect
      ensures acesso && !isPost ==> res == Listing([], None)
      ensures acesso && isPost ==>
        res == Listing(Select(rows, Criteria(f)), Some(ExportRows(Select(rows, Criteria(f)))))
      ensures acesso && isPost ==> forall r :: r in res.registros <==> r in rows && Matches(r, f)
    {
      if !acesso {
        return ReportRedirect;
      }
      if !isPost {
        return Listing([], None);
      }
      var query, params := BuildQuery(f);
      var fetched := Execute(query, params);
      var registros := fetched.value;
      forall r ensures r in registros <==> r in rows && Matches(r, f) {
        CriteriaMeaning(f, r);
      }
      res := Listing(registros, Some(ExportRows(registros)));
    }
  }
}
